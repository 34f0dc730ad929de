/** Contractor/permanent split and average contractor margin: a resource with a
    margin percentage (neither null nor undefined) is a contractor, any other
    resource is permanent. */
module Margins {
  import opened Wrappers
  import opened Records
  import opened Seqs
  import opened Status

  predicate IsContractor(r: Resource) {
    r.marginPercentage.Some?
  }

  predicate IsPermanent(r: Resource) {
    r.marginPercentage.None?
  }

  /** `rs.filter(has margin).map(r => parseFloat(r.margin_percentage))`: the
      margins present, in resource order. */
  function PresentMargins(rs: seq<Resource>): (ms: seq<real>)
    ensures |ms| == |Filter(rs, IsContractor)|
    ensures forall i :: 0 <= i < |ms| ==>
      Filter(rs, IsContractor)[i].marginPercentage.Some? && ms[i] == Filter(rs, IsContractor)[i].marginPercentage.value
    decreases |rs|
  {
    if |rs| == 0 then []
    else
      var init := PresentMargins(rs[..|rs| - 1]);
      var last := rs[|rs| - 1];
      match last.marginPercentage
      case Some(m) => init + [m]
      case None => init
  }

  datatype MarginStats = MarginStats(contractors: nat, permanent: int, average: real)

  /** `contractorsCount`, `permanentCount = total - contractorsCount` and
      `avgMargin` of a set of resources. */
  function MarginStatsOf(rs: seq<Resource>): (st: MarginStats)
    ensures st.contractors == |Filter(rs, IsContractor)|
    ensures st.contractors + st.permanent == |rs|
    ensures st.contractors == 0 ==> st.average == 0.0
    ensures st.contractors > 0 ==> st.average == Sum(PresentMargins(rs)) / (st.contractors as real)
  {
    var margins := PresentMargins(rs);
    MarginStats(|margins|, |rs| - |margins|, Mean(margins))
  }

  /** The permanent count, computed as a difference, is exactly the number
      of resources without a margin percentage. */
  lemma PermanentAreThoseWithoutMargin(rs: seq<Resource>)
    ensures MarginStatsOf(rs).permanent == |Filter(rs, IsPermanent)|
  {
    FilterComplement(rs, IsContractor, IsPermanent);
  }

  /** `xs.length > 0 ? xs.reduce((a, b) => a + b, 0) / xs.length : 0`: the
      arithmetic mean, and 0 (not an error) for no values. */
  function Mean(xs: seq<real>): (m: real)
    ensures |xs| == 0 ==> m == 0.0
    ensures |xs| > 0 ==> m * (|xs| as real) == Sum(xs)
  {
    if |xs| > 0 then Sum(xs) / (|xs| as real) else 0.0
  }

  /** Bounds on the margins present carry over to the list of margins. */
  lemma {:induction false} PresentMarginsWithin(rs: seq<Resource>, lo: real, hi: real)
    requires forall i :: 0 <= i < |rs| && rs[i].marginPercentage.Some? ==> lo <= rs[i].marginPercentage.value <= hi
    ensures forall i :: 0 <= i < |PresentMargins(rs)| ==> lo <= PresentMargins(rs)[i] <= hi
    decreases |rs|
  {
    if |rs| > 0 {
      var init := rs[..|rs| - 1];
      assert forall j :: 0 <= j < |init| ==> init[j] == rs[j];
      PresentMarginsWithin(init, lo, hi);
    }
  }

  /** The average is a mean: it lies between the smallest and the largest
      margin present. */
  lemma AverageWithinBounds(rs: seq<Resource>, lo: real, hi: real)
    requires |Filter(rs, IsContractor)| > 0
    requires forall i :: 0 <= i < |rs| && rs[i].marginPercentage.Some? ==> lo <= rs[i].marginPercentage.value <= hi
    ensures lo <= MarginStatsOf(rs).average <= hi
  {
    PresentMarginsWithin(rs, lo, hi);
    MeanWithin(PresentMargins(rs), lo, hi);
  }

  /** A mean of values in `[lo, hi]` is in `[lo, hi]`. */
  lemma MeanWithin(xs: seq<real>, lo: real, hi: real)
    requires |xs| > 0
    requires forall i :: 0 <= i < |xs| ==> lo <= xs[i] <= hi
    ensures lo <= Mean(xs) <= hi
  {
    SumBounds(xs, lo, hi);
    BetweenByScaling(Mean(xs), |xs| as real, Sum(xs), lo, hi);
  }

  lemma BetweenByScaling(avg: real, n: real, total: real, lo: real, hi: real)
    requires n > 0.0 && avg * n == total && n * lo <= total <= n * hi
    ensures lo <= avg <= hi
  {
  }

  /** The executive summary applies the same rule to the active resources
      only: its contractors are the active resources with a margin, its
      permanent staff the active resources without one, and its average the
      mean margin of the active contractors. */
  function ActiveMarginStats(rs: seq<Resource>): (st: MarginStats)
    ensures st.contractors == |Filter(rs, (r: Resource) => r.isActive && IsContractor(r))|
    ensures st.permanent == |Filter(rs, (r: Resource) => r.isActive && IsPermanent(r))|
    ensures st.contractors + st.permanent == |ActiveResources(rs)|
    ensures st.contractors == 0 ==> st.average == 0.0
    ensures st.contractors > 0 ==> st.average == Sum(PresentMargins(ActiveResources(rs))) / (st.contractors as real)
  {
    FilterFilter(rs, (r: Resource) => r.isActive, IsContractor, (r: Resource) => r.isActive && IsContractor(r));
    FilterFilter(rs, (r: Resource) => r.isActive, IsPermanent, (r: Resource) => r.isActive && IsPermanent(r));
    PermanentAreThoseWithoutMargin(ActiveResources(rs));
    MarginStatsOf(ActiveResources(rs))
  }

  function StaffMember(margin: Option<real>): Resource {
    Resource("r", Some("Acme"), None, true, margin)
  }

  /** Margins 10, none and 20 average to 15 over two contractors and one
      permanent; no resources at all give an average of 0. */
  lemma ExampleAverages()
    ensures MarginStatsOf([StaffMember(Some(10.0)), StaffMember(None), StaffMember(Some(20.0))])
      == MarginStats(2, 1, 15.0)
    ensures MarginStatsOf([]) == MarginStats(0, 0, 0.0)
  {
    var rs := [StaffMember(Some(10.0)), StaffMember(None), StaffMember(Some(20.0))];
    assert rs[..2][..1] == [StaffMember(Some(10.0))];
    assert PresentMargins(rs) == [10.0, 20.0];
    assert Sum([10.0, 20.0]) == 30.0 by {
      assert [10.0, 20.0][..1] == [10.0];
    }
  }
}
