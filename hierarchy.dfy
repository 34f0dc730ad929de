/** The hierarchy tab: SOW -> PO -> resource. Lookup tables are built from
    the flat record lists; each SOW shows a rollup of the mappings of its
    POs and a status badge, and each PO lists the resources of its mappings,
    skipping mappings whose resource is not known. */
module Hierarchy {
  import opened Wrappers
  import opened Records
  import opened Seqs
  import opened Grouping
  import opened Status
  import opened Dates

  function PoId(po: PurchaseOrder): Id { po.poId }
  function PoContractId(po: PurchaseOrder): Id { po.contractId }
  function ResourceId(r: Resource): Id { r.resourceId }
  function MappingPoId(m: Mapping): Id { m.poId }

  /** The four tables of the hierarchy tab: `posById` and `resourcesById`
      assigned record by record, `posByContract` and `mappingsByPo` grown by
      `push` into a list created on first use. */
  method BuildLookups(purchaseOrders: seq<PurchaseOrder>, resources: seq<Resource>, poMappings: seq<Mapping>)
    returns (posById: map<Id, PurchaseOrder>, resourcesById: map<Id, Resource>,
             posByContract: map<Id, seq<PurchaseOrder>>, mappingsByPo: map<Id, seq<Mapping>>)
    ensures posById == IndexBy(purchaseOrders, PoId)
    ensures resourcesById == IndexBy(resources, ResourceId)
    ensures posByContract == GroupBy(purchaseOrders, PoContractId)
    ensures mappingsByPo == GroupBy(poMappings, MappingPoId)
  {
    posById := FillIndex(purchaseOrders, PoId);
    resourcesById := FillIndex(resources, ResourceId);
    posByContract := FillGroups(purchaseOrders, PoContractId);
    mappingsByPo := FillGroups(poMappings, MappingPoId);
  }

  /** `s.forEach(x => { t[key(x)] = x; })` from an empty table. */
  method FillIndex<T>(s: seq<T>, key: T -> Id) returns (t: map<Id, T>)
    ensures t == IndexBy(s, key)
  {
    t := map[];
    for i := 0 to |s|
      invariant t == IndexBy(s[..i], key)
    {
      assert s[..i + 1][..i] == s[..i];
      var x := s[i];
      t := t[key(x) := x];
    }
    assert s[..|s|] == s;
  }

  /** `s.forEach(x => { if (!t[key(x)]) t[key(x)] = []; t[key(x)].push(x); })`
      from an empty table. */
  method FillGroups<T>(s: seq<T>, key: T -> Id) returns (t: map<Id, seq<T>>)
    ensures t == GroupBy(s, key)
  {
    t := map[];
    for i := 0 to |s|
      invariant t == GroupBy(s[..i], key)
    {
      assert s[..i + 1][..i] == s[..i];
      var x := s[i];
      var k := key(x);
      if k !in t {
        t := t[k := []];
      }
      t := t[k := t[k] + [x]];
    }
    assert s[..|s|] == s;
  }

  /** A PO appears in the list of its own contract and in no other, and the
      lists of all contracts together hold every PO exactly once. */
  lemma PosByContractPartitions(pos: seq<PurchaseOrder>, contractIds: seq<Id>)
    requires Distinct(contractIds)
    requires forall i :: 0 <= i < |pos| ==> pos[i].contractId in contractIds
    ensures forall i, k :: 0 <= i < |pos| ==>
      (pos[i] in Lookup(GroupBy(pos, PoContractId), k) <==> k == pos[i].contractId)
    ensures SumLookups(GroupBy(pos, PoContractId), contractIds) == |pos|
  {
    forall i, k | 0 <= i < |pos|
      ensures pos[i] in Lookup(GroupBy(pos, PoContractId), k) <==> k == pos[i].contractId
    {
      GroupByPlacement(pos, PoContractId, pos[i], k);
    }
    GroupByPartition(pos, PoContractId, contractIds);
  }

  /** Likewise every mapping is listed under its own PO only, and the lists
      of all POs together hold every mapping exactly once. */
  lemma MappingsByPoPartitions(ms: seq<Mapping>, poIds: seq<Id>)
    requires Distinct(poIds)
    requires forall i :: 0 <= i < |ms| ==> ms[i].poId in poIds
    ensures forall i, k :: 0 <= i < |ms| ==>
      (ms[i] in Lookup(GroupBy(ms, MappingPoId), k) <==> k == ms[i].poId)
    ensures SumLookups(GroupBy(ms, MappingPoId), poIds) == |ms|
  {
    forall i, k | 0 <= i < |ms|
      ensures ms[i] in Lookup(GroupBy(ms, MappingPoId), k) <==> k == ms[i].poId
    {
      GroupByPlacement(ms, MappingPoId, ms[i], k);
    }
    GroupByPartition(ms, MappingPoId, poIds);
  }

  /** The lists keep input order: the POs of a contract are the POs with its
      id in the order they arrived, and a PO id stored in `posById` maps to
      the last PO with that id. */
  lemma TablesKeepInputOrder(pos: seq<PurchaseOrder>, cid: Id, pid: Id)
    ensures Lookup(GroupBy(pos, PoContractId), cid) == KeyFilter(pos, PoContractId, cid)
    ensures pid in IndexBy(pos, PoId) ==>
      exists j :: 0 <= j < |pos| && IndexBy(pos, PoId)[pid] == pos[j] && pos[j].poId == pid &&
        forall i :: j < i < |pos| ==> pos[i].poId != pid
  {
    GroupByIsKeyFilter(pos, PoContractId, cid);
    IndexByLastWins(pos, PoId, pid);
  }

  // ---------------------------------------------------------------- rollup

  /** The mappings of the given POs, PO by PO, each PO's from `mappingsByPo[po.po_id] || []`. */
  function MappingsOfPos(contractPOs: seq<PurchaseOrder>, mappingsByPo: map<Id, seq<Mapping>>): seq<Mapping>
    decreases |contractPOs|
  {
    if |contractPOs| == 0 then []
    else MappingsOfPos(contractPOs[..|contractPOs| - 1], mappingsByPo) + Lookup(mappingsByPo, contractPOs[|contractPOs| - 1].poId)
  }

  /** The `[total, active, ended]` counters of one SOW, summed PO by PO. */
  method ContractRollup(contractPOs: seq<PurchaseOrder>, mappingsByPo: map<Id, seq<Mapping>>)
    returns (totalResources: nat, activeResourceMappings: nat, endedResourceMappings: nat)
    ensures totalResources == |MappingsOfPos(contractPOs, mappingsByPo)|
    ensures activeResourceMappings == |Filter(MappingsOfPos(contractPOs, mappingsByPo), IsActiveMapping)|
    ensures endedResourceMappings == |Filter(MappingsOfPos(contractPOs, mappingsByPo), IsEndedMapping)|
    ensures totalResources == activeResourceMappings + endedResourceMappings
  {
    totalResources, activeResourceMappings, endedResourceMappings := 0, 0, 0;
    for i := 0 to |contractPOs|
      invariant totalResources == |MappingsOfPos(contractPOs[..i], mappingsByPo)|
      invariant activeResourceMappings == |Filter(MappingsOfPos(contractPOs[..i], mappingsByPo), IsActiveMapping)|
      invariant endedResourceMappings == |Filter(MappingsOfPos(contractPOs[..i], mappingsByPo), IsEndedMapping)|
    {
      assert contractPOs[..i + 1][..i] == contractPOs[..i];
      var poMappings := Lookup(mappingsByPo, contractPOs[i].poId);
      FilterAppend(MappingsOfPos(contractPOs[..i], mappingsByPo), poMappings, IsActiveMapping);
      FilterAppend(MappingsOfPos(contractPOs[..i], mappingsByPo), poMappings, IsEndedMapping);
      totalResources := totalResources + |poMappings|;
      activeResourceMappings := activeResourceMappings + |Filter(poMappings, IsActiveMapping)|;
      endedResourceMappings := endedResourceMappings + |Filter(poMappings, IsEndedMapping)|;
    }
    assert contractPOs[..|contractPOs|] == contractPOs;
    FilterComplement(MappingsOfPos(contractPOs, mappingsByPo), IsActiveMapping, IsEndedMapping);
  }

  lemma {:induction false} MappingsOfPosMembers(cps: seq<PurchaseOrder>, ms: seq<Mapping>, m: Mapping)
    ensures m in MappingsOfPos(cps, GroupBy(ms, MappingPoId)) <==>
      m in ms && exists i :: 0 <= i < |cps| && cps[i].poId == m.poId
    decreases |cps|
  {
    if |cps| > 0 {
      var init := cps[..|cps| - 1];
      var last := cps[|cps| - 1];
      MappingsOfPosMembers(init, ms, m);
      GroupByIsKeyFilter(ms, MappingPoId, last.poId);
      assert forall i :: 0 <= i < |init| ==> init[i] == cps[i];
      if m in ms && exists i :: 0 <= i < |cps| && cps[i].poId == m.poId {
        var i :| 0 <= i < |cps| && cps[i].poId == m.poId;
        if i == |cps| - 1 {
          assert m in KeyFilter(ms, MappingPoId, last.poId);
        }
      }
    }
  }

  /** The rollup of a SOW contains exactly the mappings whose PO belongs to
      the SOW; a mapping counts as active only with status 'Active', so one
      with no status is ended. */
  lemma RollupCountsTheContractsMappings(pos: seq<PurchaseOrder>, ms: seq<Mapping>, cid: Id, m: Mapping)
    ensures var counted := MappingsOfPos(Lookup(GroupBy(pos, PoContractId), cid), GroupBy(ms, MappingPoId));
      && (m in counted <==> m in ms && exists i :: 0 <= i < |pos| && pos[i].contractId == cid && pos[i].poId == m.poId)
      && (m in Filter(counted, IsActiveMapping) <==> m in counted && m.status == Some("Active"))
      && (m in Filter(counted, IsEndedMapping) <==> m in counted && (m.status.None? || m.status.value != "Active"))
  {
    var cps := Lookup(GroupBy(pos, PoContractId), cid);
    GroupByIsKeyFilter(pos, PoContractId, cid);
    assert forall po :: po in cps <==> po in pos && po.contractId == cid;
    MappingsOfPosMembers(cps, ms, m);
    ContractPoWitness(pos, cps, cid, m.poId);
  }

  /** A mapping is rolled up once for every PO in the list that carries its
      PO id (times the number of copies of it): two POs of one SOW sharing a
      PO id count that PO's mappings twice. */
  lemma {:induction false} RollupMultiplicity(cps: seq<PurchaseOrder>, ms: seq<Mapping>, m: Mapping)
    ensures multiset(MappingsOfPos(cps, GroupBy(ms, MappingPoId)))[m] ==
      |KeyFilter(cps, PoId, m.poId)| * multiset(ms)[m]
    decreases |cps|
  {
    if |cps| > 0 {
      var init, last := cps[..|cps| - 1], cps[|cps| - 1];
      var g := GroupBy(ms, MappingPoId);
      var before, added := MappingsOfPos(init, g), Lookup(g, last.poId);
      assert MappingsOfPos(cps, g) == before + added;
      assert multiset(before + added) == multiset(before) + multiset(added);
      RollupMultiplicity(init, ms, m);
      GroupByIsKeyFilter(ms, MappingPoId, last.poId);
      KeyFilterMultiplicity(ms, MappingPoId, last.poId, m);
      var k, c := |KeyFilter(init, PoId, m.poId)|, multiset(ms)[m];
      assert multiset(before)[m] == k * c;
      if last.poId == m.poId {
        assert |KeyFilter(cps, PoId, m.poId)| == k + 1;
        assert multiset(added)[m] == c;
        MulSucc(k, c);
      } else {
        assert |KeyFilter(cps, PoId, m.poId)| == k;
        assert multiset(added)[m] == 0;
      }
    }
  }

  lemma MulSucc(k: int, c: int)
    ensures (k + 1) * c == k * c + c
  {
  }

  predicate DistinctPoIds(cps: seq<PurchaseOrder>) {
    forall i, j :: 0 <= i < j < |cps| ==> cps[i].poId != cps[j].poId
  }

  /** The mappings whose PO id is that of a PO in the list. */
  function OnPos(cps: seq<PurchaseOrder>): Mapping -> bool {
    (m: Mapping) => exists i :: 0 <= i < |cps| && cps[i].poId == m.poId
  }

  lemma {:induction false} KeyFilterOfDistinct(cps: seq<PurchaseOrder>, id: Id)
    requires DistinctPoIds(cps)
    ensures |KeyFilter(cps, PoId, id)| == if exists i :: 0 <= i < |cps| && cps[i].poId == id then 1 else 0
    decreases |cps|
  {
    if |cps| > 0 {
      var init, last := cps[..|cps| - 1], cps[|cps| - 1];
      assert forall i :: 0 <= i < |init| ==> init[i] == cps[i];
      KeyFilterOfDistinct(init, id);
      if last.poId == id {
        assert forall i :: 0 <= i < |init| ==> init[i].poId != id;
      } else if exists i :: 0 <= i < |cps| && cps[i].poId == id {
        var i :| 0 <= i < |cps| && cps[i].poId == id;
        assert i < |init|;
      }
    }
  }

  /** With distinct PO ids the rollup holds each mapping of the listed POs
      exactly as often as the input does, so its `[total, active, ended]`
      counters count the mappings of those POs. */
  lemma RollupCountsWhenPoIdsDistinct(cps: seq<PurchaseOrder>, ms: seq<Mapping>)
    requires DistinctPoIds(cps)
    ensures multiset(MappingsOfPos(cps, GroupBy(ms, MappingPoId))) == multiset(Filter(ms, OnPos(cps)))
    ensures |MappingsOfPos(cps, GroupBy(ms, MappingPoId))| == |Filter(ms, OnPos(cps))|
    ensures |Filter(MappingsOfPos(cps, GroupBy(ms, MappingPoId)), IsActiveMapping)| ==
      |Filter(Filter(ms, OnPos(cps)), IsActiveMapping)|
    ensures |Filter(MappingsOfPos(cps, GroupBy(ms, MappingPoId)), IsEndedMapping)| ==
      |Filter(Filter(ms, OnPos(cps)), IsEndedMapping)|
  {
    var counted := MappingsOfPos(cps, GroupBy(ms, MappingPoId));
    var owned := Filter(ms, OnPos(cps));
    forall m ensures multiset(counted)[m] == multiset(owned)[m] {
      RollupMultiplicity(cps, ms, m);
      KeyFilterOfDistinct(cps, m.poId);
      FilterMultiplicity(ms, OnPos(cps), m);
    }
    assert multiset(counted) == multiset(owned);
    assert |multiset(counted)| == |counted| && |multiset(owned)| == |owned|;
    FilterPermutation(counted, owned, IsActiveMapping);
    FilterPermutation(counted, owned, IsEndedMapping);
  }

  /** Two POs of a SOW with the same PO id: their one mapping is counted twice. */
  lemma SharedPoIdCountsTwice(po: PurchaseOrder, m: Mapping)
    requires m.poId == po.poId
    ensures |MappingsOfPos([po, po], GroupBy([m], MappingPoId))| == 2
  {
    var g := GroupBy([m], MappingPoId);
    GroupByIsKeyFilter([m], MappingPoId, po.poId);
    assert KeyFilter([m], MappingPoId, po.poId) == [m] by {
      assert [m][..0] == [];
    }
    assert [po][..0] == [];
    assert MappingsOfPos([po], g) == [m];
    assert [po, po][..1] == [po];
    assert MappingsOfPos([po, po], g) == [m, m];
  }

  lemma ContractPoWitness(pos: seq<PurchaseOrder>, cps: seq<PurchaseOrder>, cid: Id, pid: Id)
    requires forall po :: po in cps <==> po in pos && po.contractId == cid
    ensures (exists i :: 0 <= i < |cps| && cps[i].poId == pid) <==>
      (exists i :: 0 <= i < |pos| && pos[i].contractId == cid && pos[i].poId == pid)
  {
    if exists i :: 0 <= i < |pos| && pos[i].contractId == cid && pos[i].poId == pid {
      var i :| 0 <= i < |pos| && pos[i].contractId == cid && pos[i].poId == pid;
      assert pos[i] in cps;
    }
    if exists i :: 0 <= i < |cps| && cps[i].poId == pid {
      var i :| 0 <= i < |cps| && cps[i].poId == pid;
      assert cps[i] in pos;
    }
  }

  /** `poMappings.filter(m => m.status === 'Active').length` in a PO's header:
      at most the PO's mapping count, 0 exactly when none of its mappings has
      status 'Active', and with the ended ones it makes up the whole list. */
  function PoActiveCount(poMappings: seq<Mapping>): (r: nat)
    ensures r <= |poMappings|
    ensures r == 0 <==> forall i :: 0 <= i < |poMappings| ==> poMappings[i].status != Some("Active")
    ensures r + |Filter(poMappings, IsEndedMapping)| == |poMappings|
  {
    var active := Filter(poMappings, IsActiveMapping);
    FilterComplement(poMappings, IsActiveMapping, IsEndedMapping);
    assert |active| > 0 ==> active[0] in active;
    assert forall i :: 0 <= i < |poMappings| && IsActiveMapping(poMappings[i]) ==> poMappings[i] in active;
    |active|
  }

  // ---------------------------------------------------------------- resources

  /** A mapping shown under its PO, with the resource it names. */
  datatype ResolvedMapping = ResolvedMapping(mapping: Mapping, resource: Resource)

  /** The mappings whose resource is known. */
  function Listed(poMappings: seq<Mapping>, resourcesById: map<Id, Resource>): seq<Mapping> {
    Filter(poMappings, (m: Mapping) => m.resourceId in resourcesById)
  }

  /** `poMappings.forEach(mapping => { const resource = resourcesById[...]; if (!resource) return; ... })`. */
  function ResolvedMappings(poMappings: seq<Mapping>, resourcesById: map<Id, Resource>): (r: seq<ResolvedMapping>)
    ensures |r| == |Listed(poMappings, resourcesById)|
    ensures forall i :: 0 <= i < |r| ==>
      r[i].mapping == Listed(poMappings, resourcesById)[i] &&
      r[i].mapping.resourceId in resourcesById &&
      r[i].resource == resourcesById[r[i].mapping.resourceId]
    decreases |poMappings|
  {
    if |poMappings| == 0 then []
    else
      var init := poMappings[..|poMappings| - 1];
      var m := poMappings[|poMappings| - 1];
      FilterSnoc(init, m, (m: Mapping) => m.resourceId in resourcesById);
      assert poMappings == init + [m];
      var r := ResolvedMappings(init, resourcesById);
      if m.resourceId in resourcesById then r + [ResolvedMapping(m, resourcesById[m.resourceId])] else r
  }

  /** Orphans are counted but not listed: the listed mappings and those whose
      resource is unknown make up all the PO's mappings, which the rollup
      counts in full. */
  lemma OrphansCountedNotListed(poMappings: seq<Mapping>, resourcesById: map<Id, Resource>)
    ensures |ResolvedMappings(poMappings, resourcesById)| +
      |Filter(poMappings, (m: Mapping) => m.resourceId !in resourcesById)| == |poMappings|
    ensures |ResolvedMappings(poMappings, resourcesById)| == |poMappings| <==>
      forall i :: 0 <= i < |poMappings| ==> poMappings[i].resourceId in resourcesById
  {
    var p := (m: Mapping) => m.resourceId in resourcesById;
    var q := (m: Mapping) => m.resourceId !in resourcesById;
    FilterComplement(poMappings, p, q);
    var orphans := Filter(poMappings, q);
    if |orphans| > 0 {
      assert orphans[0] in orphans;
    }
    if exists i :: 0 <= i < |poMappings| && poMappings[i].resourceId !in resourcesById {
      var i :| 0 <= i < |poMappings| && poMappings[i].resourceId !in resourcesById;
      assert poMappings[i] in orphans;
    }
  }

  /** With `resourcesById` built from the resource list, the resource shown
      for a mapping is the last resource with the mapping's resource id. */
  lemma ShownResourceIsLastWithId(poMappings: seq<Mapping>, resources: seq<Resource>, i: int)
    requires 0 <= i < |ResolvedMappings(poMappings, IndexBy(resources, ResourceId))|
    ensures var shown := ResolvedMappings(poMappings, IndexBy(resources, ResourceId))[i];
      exists j :: 0 <= j < |resources| && shown.resource == resources[j] &&
        resources[j].resourceId == shown.mapping.resourceId &&
        forall k :: j < k < |resources| ==> resources[k].resourceId != shown.mapping.resourceId
  {
    var shown := ResolvedMappings(poMappings, IndexBy(resources, ResourceId))[i];
    IndexByLastWins(resources, ResourceId, shown.mapping.resourceId);
  }

  // ---------------------------------------------------------------- badge

  /** `contract.status || 'Active'`: the SOW badge shows the stored status, and
      'Active' when there is none, whatever the dates say. */
  function SowBadge(c: Contract): (r: string)
    ensures r != ""
    ensures c.status.None? || c.status.value == "" ==> r == "Active"
    ensures c.status.Some? && c.status.value != "" ==> r == c.status.value
  {
    TextOr(c.status, "Active")
  }

  /** The badge and the SOW tab's status column disagree for a SOW with no
      stored status whose end date has passed: the badge says Active, the
      column Completed. */
  lemma BadgeIgnoresEndDate(c: Contract, now: int)
    requires c.status.None? && c.endDate.Some? && now > ParseDate(c.endDate).value
    ensures SowBadge(c) == "Active"
    ensures SowStatusOf(c, now) == Completed
  {
  }
}
