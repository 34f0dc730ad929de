/** Lifecycle status of SOWs, POs, resources, mappings and risks, and the
    summary counts the dashboard tabs show (active/completed SOWs, open/closed
    and unreceived POs, active/inactive resources, RAG counts of risks,
    active/ended mappings). */
module Status {
  import opened Wrappers
  import opened Dates
  import opened Records
  import opened Seqs

  // ---------------------------------------------------------------- SOWs

  /** `endDate && endDate >= now`: a SOW counts as active while `now` has not
      passed the midnight its end date starts. */
  predicate IsActiveContract(c: Contract, now: int) {
    var e := ParseDate(c.endDate);
    e.Some? && e.value >= now
  }

  function ActiveContracts(cs: seq<Contract>, now: int): seq<Contract> {
    Filter(cs, c => IsActiveContract(c, now))
  }

  datatype SowStatus = Active | Completed

  /** The status column of the SOW table. */
  function SowStatusOf(c: Contract, now: int): (r: SowStatus)
    ensures c.endDate.None? ==> r == Completed
    ensures c.endDate.Some? ==> (r == Active <==> now <= Midnight(c.endDate.value))
  {
    if IsActiveContract(c, now) then Active else Completed
  }

  /** `activeCount` of the SOW tab: the rows whose status is Active. */
  function ActiveSowCount(cs: seq<Contract>, now: int): (r: nat)
    ensures r == |Filter(cs, c => SowStatusOf(c, now) == Active)|
  {
    FilterCongruent(cs, c => IsActiveContract(c, now), c => SowStatusOf(c, now) == Active);
    |ActiveContracts(cs, now)|
  }

  /** `completedCount = total - activeCount` never goes negative and is exactly
      the number of rows whose status is Completed, those without an end date
      included. */
  function CompletedSowCount(cs: seq<Contract>, now: int): (r: int)
    ensures 0 <= r <= |cs|
    ensures r == |Filter(cs, c => SowStatusOf(c, now) == Completed)|
    ensures r + ActiveSowCount(cs, now) == |cs|
  {
    FilterComplement(cs, c => SowStatusOf(c, now) == Active, c => SowStatusOf(c, now) == Completed);
    |cs| - ActiveSowCount(cs, now)
  }

  // ---------------------------------------------------------------- POs

  /** `endDate && endDate >= now` on the PO's period end. */
  predicate IsOpenPo(po: PurchaseOrder, now: int) {
    var e := ParseDate(po.periodEndDate);
    e.Some? && e.value >= now
  }

  datatype PoPeriodStatus = Open | Closed

  /** The period-status column of the PO table. */
  function PoPeriodStatusOf(po: PurchaseOrder, now: int): (r: PoPeriodStatus)
    ensures po.periodEndDate.None? ==> r == Closed
    ensures po.periodEndDate.Some? ==> (r == Open <==> now <= Midnight(po.periodEndDate.value))
  {
    if IsOpenPo(po, now) then Open else Closed
  }

  function OpenPoCount(pos: seq<PurchaseOrder>, now: int): (r: nat)
    ensures r == |Filter(pos, po => PoPeriodStatusOf(po, now) == Open)|
  {
    FilterCongruent(pos, po => IsOpenPo(po, now), po => PoPeriodStatusOf(po, now) == Open);
    |Filter(pos, po => IsOpenPo(po, now))|
  }

  /** `closedCount = total - openCount`: the rows whose period status is Closed,
      those without an end date included. */
  function ClosedPoCount(pos: seq<PurchaseOrder>, now: int): (r: int)
    ensures 0 <= r <= |pos|
    ensures r == |Filter(pos, po => PoPeriodStatusOf(po, now) == Closed)|
    ensures r + OpenPoCount(pos, now) == |pos|
  {
    FilterComplement(pos, po => PoPeriodStatusOf(po, now) == Open, po => PoPeriodStatusOf(po, now) == Closed);
    |pos| - OpenPoCount(pos, now)
  }

  /** `po.po_status !== 'received'` counted over all POs: independent of the
      period status, with a missing status counting as not received; it is 0
      (the "All POs received" message) exactly when every PO says 'received'. */
  function UnreceivedPoCount(pos: seq<PurchaseOrder>): (r: nat)
    ensures r <= |pos|
    ensures r == 0 <==> forall i :: 0 <= i < |pos| ==> pos[i].poStatus == Some("received")
    ensures r + |Filter(pos, (po: PurchaseOrder) => po.poStatus == Some("received"))| == |pos|
  {
    var unreceived := Filter(pos, (po: PurchaseOrder) => po.poStatus != Some("received"));
    FilterComplement(pos, (po: PurchaseOrder) => po.poStatus == Some("received"), (po: PurchaseOrder) => po.poStatus != Some("received"));
    assert forall i :: 0 <= i < |pos| && pos[i].poStatus != Some("received") ==> pos[i] in unreceived;
    assert |unreceived| > 0 ==> unreceived[0] in unreceived;
    |unreceived|
  }

  // ---------------------------------------------------------------- Resources

  function ActiveResources(rs: seq<Resource>): seq<Resource> {
    Filter(rs, (r: Resource) => r.isActive)
  }

  /** `inactiveCount = total - activeCount` is the number of resources whose
      flag is off. */
  function InactiveResourceCount(rs: seq<Resource>): (r: int)
    ensures 0 <= r <= |rs|
    ensures r == |Filter(rs, (x: Resource) => !x.isActive)|
    ensures r + |ActiveResources(rs)| == |rs|
  {
    FilterComplement(rs, (x: Resource) => x.isActive, (x: Resource) => !x.isActive);
    |rs| - |ActiveResources(rs)|
  }

  // ---------------------------------------------------------------- Mappings

  /** `m.status === 'Active'`, exactly: a mapping without a status is ended. */
  predicate IsActiveMapping(m: Mapping) {
    m.status == Some("Active")
  }

  /** `m.status !== 'Active'`: anything but 'Active', a missing status included. */
  predicate IsEndedMapping(m: Mapping) {
    m.status != Some("Active")
  }

  /** `endedMappings = total - activeMappings` of the hierarchy summary: the
      mappings whose status is anything but 'Active', a missing one included. */
  function EndedMappingCount(ms: seq<Mapping>): (r: int)
    ensures 0 <= r <= |ms|
    ensures r == |Filter(ms, IsEndedMapping)|
    ensures r + |Filter(ms, IsActiveMapping)| == |ms|
  {
    FilterComplement(ms, IsActiveMapping, IsEndedMapping);
    |ms| - |Filter(ms, IsActiveMapping)|
  }

  // ---------------------------------------------------------------- Risks

  datatype RagClass = Red | Amber | Green | Unclassified

  /** The row class of the risk table: compared with 'Red', 'Amber' and 'Green'
      exactly, anything else (a missing status too) left unclassified. */
  function RagClassOf(r: Risk): RagClass {
    if r.ragStatus == Some("Red") then Red
    else if r.ragStatus == Some("Amber") then Amber
    else if r.ragStatus == Some("Green") then Green
    else Unclassified
  }

  datatype RagCounts = RagCounts(red: nat, amber: nat, green: nat)

  /** The three counts of the risks summary: the number of rows of each class,
      and together with the unclassified rows they cover every risk once. */
  function RagCountsOf(risks: seq<Risk>): (c: RagCounts)
    ensures c.red == |Filter(risks, r => RagClassOf(r) == Red)|
    ensures c.amber == |Filter(risks, r => RagClassOf(r) == Amber)|
    ensures c.green == |Filter(risks, r => RagClassOf(r) == Green)|
    ensures c.red + c.amber + c.green + |Filter(risks, r => RagClassOf(r) == Unclassified)| == |risks|
  {
    var red := Filter(risks, (r: Risk) => r.ragStatus == Some("Red"));
    var amber := Filter(risks, (r: Risk) => r.ragStatus == Some("Amber"));
    var green := Filter(risks, (r: Risk) => r.ragStatus == Some("Green"));
    FilterCongruent(risks, (r: Risk) => r.ragStatus == Some("Red"), r => RagClassOf(r) == Red);
    FilterCongruent(risks, (r: Risk) => r.ragStatus == Some("Amber"), r => RagClassOf(r) == Amber);
    FilterCongruent(risks, (r: Risk) => r.ragStatus == Some("Green"), r => RagClassOf(r) == Green);
    RagPartition(risks);
    RagCounts(|red|, |amber|, |green|)
  }

  lemma {:induction false} RagPartition(risks: seq<Risk>)
    ensures |Filter(risks, r => RagClassOf(r) == Red)| + |Filter(risks, r => RagClassOf(r) == Amber)|
      + |Filter(risks, r => RagClassOf(r) == Green)| + |Filter(risks, r => RagClassOf(r) == Unclassified)| == |risks|
    decreases |risks|
  {
    if |risks| > 0 {
      RagPartition(risks[..|risks| - 1]);
    }
  }
}
