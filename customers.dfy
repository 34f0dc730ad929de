/** The executive summary's customer breakdown. Active SOWs and active
    resources are counted per customer, where customers are told apart by their
    upper-cased name (a missing name counts as "Unknown"). The name shown is
    the casing seen first, first among the SOWs and then among the resources.
    One row is emitted per customer, in ascending key order. */
module Customers {
  import opened Wrappers
  import opened Records
  import opened Seqs
  import opened Sorting
  import opened Grouping

  /** `toUpperCase` on one character, restricted to the ASCII letters. */
  function UpperChar(c: char): char {
    if 'a' <= c <= 'z' then (c as int - 32) as char else c
  }

  function Upper(s: string): string {
    seq(|s|, i requires 0 <= i < |s| => UpperChar(s[i]))
  }

  /** An upper-cased name has no lower-case ASCII letter, keeps its length and
      upper-casing it again changes nothing. */
  lemma UpperIsUpper(s: string)
    ensures |Upper(s)| == |s|
    ensures forall i :: 0 <= i < |s| ==> !('a' <= Upper(s)[i] <= 'z')
    ensures forall i :: 0 <= i < |s| && !('a' <= s[i] <= 'z') ==> Upper(s)[i] == s[i]
    ensures Upper(Upper(s)) == Upper(s)
  {
  }

  /** `c.customer_name || 'Unknown'`: never empty, so a canonical-name table
      entry is never falsy. */
  function CustomerLabel(name: Option<string>): (r: string)
    ensures r != ""
    ensures name.Some? && name.value != "" ==> r == name.value
    ensures name.None? || name.value == "" ==> r == "Unknown"
  {
    TextOr(name, "Unknown")
  }

  function ContractLabel(c: Contract): string {
    CustomerLabel(c.customerName)
  }

  function ResourceLabel(r: Resource): string {
    CustomerLabel(r.customerName)
  }

  function ContractKey(c: Contract): string {
    Upper(ContractLabel(c))
  }

  function ResourceKey(r: Resource): string {
    Upper(ResourceLabel(r))
  }

  /** The number of SOWs of customer k. */
  function SowCount(cs: seq<Contract>, k: string): nat {
    |KeyFilter(cs, ContractKey, k)|
  }

  /** The number of resources of customer k. */
  function ResourceCount(rs: seq<Resource>, k: string): nat {
    |KeyFilter(rs, ResourceKey, k)|
  }

  /** The casing of customer k seen first: in the SOWs, and failing that in
      the resources. */
  function DisplayName(cs: seq<Contract>, rs: seq<Resource>, k: string): Option<string> {
    match FirstByKey(cs, ContractKey, k)
    case Some(c) => Some(ContractLabel(c))
    case None =>
      match FirstByKey(rs, ResourceKey, k)
      case Some(r) => Some(ResourceLabel(r))
      case None => None
  }

  /** One line of the breakdown: `<name>: <sowCount> SOWs, <resourceCount> resources`. */
  datatype CustomerRow = CustomerRow(key: string, name: string, sowCount: nat, resourceCount: nat)

  function RowKeys(rows: seq<CustomerRow>): seq<string> {
    seq(|rows|, i requires 0 <= i < |rows| => rows[i].key)
  }

  /** rows is the breakdown of cs and rs: keys strictly ascending, exactly the
      customers with a SOW or a resource, each with its counts and the casing
      seen first. */
  ghost predicate IsBreakdown(cs: seq<Contract>, rs: seq<Resource>, rows: seq<CustomerRow>) {
    && (forall i, j :: 0 <= i < j < |rows| ==> StrLe(rows[i].key, rows[j].key) && rows[i].key != rows[j].key)
    && (forall k :: k in RowKeys(rows) <==> SowCount(cs, k) > 0 || ResourceCount(rs, k) > 0)
    && (forall i :: 0 <= i < |rows| ==> RowFits(cs, rs, rows[i]))
  }

  /** The counts of a row are those of its customer, and its name is the
      casing of that customer seen first. */
  predicate RowFits(cs: seq<Contract>, rs: seq<Resource>, row: CustomerRow) {
    && row.sowCount == SowCount(cs, row.key)
    && row.resourceCount == ResourceCount(rs, row.key)
    && DisplayName(cs, rs, row.key) == Some(row.name)
  }

  /** What the three tables hold once both passes are over. */
  lemma TablesAfterBothPasses(cs: seq<Contract>, rs: seq<Resource>, k: string)
    ensures k in CountBy(cs, ContractKey) <==> SowCount(cs, k) > 0
    ensures k in CountBy(cs, ContractKey) ==> CountBy(cs, ContractKey)[k] == SowCount(cs, k)
    ensures k in CountBy(rs, ResourceKey) <==> ResourceCount(rs, k) > 0
    ensures k in CountBy(rs, ResourceKey) ==> CountBy(rs, ResourceKey)[k] == ResourceCount(rs, k)
    ensures var names := KeepFirst(KeepFirst(map[], cs, ContractKey, ContractLabel), rs, ResourceKey, ResourceLabel);
      && (k in names <==> SowCount(cs, k) > 0 || ResourceCount(rs, k) > 0)
      && (k in names ==> DisplayName(cs, rs, k) == Some(names[k]))
  {
    CountByIsKeyFilter(cs, ContractKey, k);
    CountByIsKeyFilter(rs, ResourceKey, k);
    var first := KeepFirst(map[], cs, ContractKey, ContractLabel);
    KeepFirstIsFirstByKey(map[], cs, ContractKey, ContractLabel, k);
    KeepFirstIsFirstByKey(first, rs, ResourceKey, ResourceLabel, k);
    FirstByKeyIsFirst(cs, ContractKey, k);
    FirstByKeyIsFirst(rs, ResourceKey, k);
    var sows := KeyFilter(cs, ContractKey, k);
    var res := KeyFilter(rs, ResourceKey, k);
    if FirstByKey(cs, ContractKey, k).Some? {
      assert FirstByKey(cs, ContractKey, k).value in sows;
    }
    if FirstByKey(rs, ResourceKey, k).Some? {
      assert FirstByKey(rs, ResourceKey, k).value in res;
    }
  }

  /** One `forEach` pass of the breakdown over s: every element is counted
      under its upper-cased label, and the first label seen of each key is
      kept in the canonical-name table, which the pass continues from `names`.
      `keys` lists the keys of the count table, each once. */
  method TallyPass<T>(s: seq<T>, nameOf: T -> string, key: T -> string, names: map<string, string>)
    returns (counts: map<string, nat>, keys: seq<string>, canonicalNames: map<string, string>)
    requires forall x :: key(x) == Upper(nameOf(x))
    ensures counts == CountBy(s, key)
    ensures canonicalNames == KeepFirst(names, s, key, nameOf)
    ensures Distinct(keys) && forall k :: k in keys <==> k in counts
  {
    counts, keys, canonicalNames := map[], [], names;
    for i := 0 to |s|
      invariant counts == CountBy(s[..i], key)
      invariant canonicalNames == KeepFirst(names, s[..i], key, nameOf)
      invariant Distinct(keys) && forall k :: k in keys <==> k in counts
    {
      assert s[..i + 1][..i] == s[..i];
      var customer := nameOf(s[i]);
      var k := Upper(customer);
      if k !in canonicalNames {
        canonicalNames := canonicalNames[k := customer];
      }
      if k !in counts {
        DistinctSnoc(keys, k);
        keys := keys + [k];
      }
      counts := counts[k := (if k in counts then counts[k] else 0) + 1];
    }
    assert s[..|s|] == s;
  }

  /** `sortedCustomers.forEach(key => ...)`: one row per key, with the name
      from the canonical-name table and the counts `t[key] || 0`. */
  method EmitRows(cs: seq<Contract>, rs: seq<Resource>, sortedCustomers: seq<string>,
                  customerSowCounts: map<string, nat>, customerResourceCounts: map<string, nat>,
                  customerCanonicalNames: map<string, string>)
    returns (rows: seq<CustomerRow>)
    requires customerSowCounts == CountBy(cs, ContractKey)
    requires customerResourceCounts == CountBy(rs, ResourceKey)
    requires customerCanonicalNames ==
      KeepFirst(KeepFirst(map[], cs, ContractKey, ContractLabel), rs, ResourceKey, ResourceLabel)
    requires forall k :: k in sortedCustomers ==> k in customerSowCounts || k in customerResourceCounts
    ensures RowKeys(rows) == sortedCustomers
    ensures forall j :: 0 <= j < |rows| ==> RowFits(cs, rs, rows[j])
  {
    rows := [];
    for i := 0 to |sortedCustomers|
      invariant |rows| == i
      invariant forall j :: 0 <= j < i ==> rows[j].key == sortedCustomers[j]
      invariant forall j :: 0 <= j < i ==> RowFits(cs, rs, rows[j])
    {
      var key := sortedCustomers[i];
      TablesAfterBothPasses(cs, rs, key);
      var name := customerCanonicalNames[key];
      var sowCount := if key in customerSowCounts then customerSowCounts[key] else 0;
      var resourceCount := if key in customerResourceCounts then customerResourceCounts[key] else 0;
      var row := CustomerRow(key, name, sowCount, resourceCount);
      assert RowFits(cs, rs, row);
      assert forall j :: 0 <= j < i ==> (rows + [row])[j] == rows[j];
      rows := rows + [row];
    }
  }

  /** The customer breakdown of renderExecutiveSummary, over the active SOWs and
      the active resources. */
  method CustomerBreakdown(activeContracts: seq<Contract>, activeResources: seq<Resource>)
    returns (rows: seq<CustomerRow>)
    ensures IsBreakdown(activeContracts, activeResources, rows)
  {
    var customerSowCounts, sowKeys, namesAfterSows :=
      TallyPass(activeContracts, ContractLabel, ContractKey, map[]);
    var customerResourceCounts, resourceKeys, customerCanonicalNames :=
      TallyPass(activeResources, ResourceLabel, ResourceKey, namesAfterSows);

    var allCustomers := Deduplicate(sowKeys + resourceKeys);
    StrLeIsTotalPreorder();
    var sortedCustomers := Sort(allCustomers, StrLe);
    SortDistinct(allCustomers, StrLe);
    assert forall k :: k in sortedCustomers <==> k in allCustomers by {
      forall k ensures k in sortedCustomers <==> k in allCustomers {
        assert k in sortedCustomers <==> k in multiset(sortedCustomers);
        assert k in allCustomers <==> k in multiset(allCustomers);
      }
    }

    assert forall k :: k in sortedCustomers ==> k in customerSowCounts || k in customerResourceCounts;
    rows := EmitRows(activeContracts, activeResources, sortedCustomers,
      customerSowCounts, customerResourceCounts, customerCanonicalNames);
    forall i, j | 0 <= i < j < |rows|
      ensures StrLe(rows[i].key, rows[j].key) && rows[i].key != rows[j].key
    {
      assert rows[i].key == sortedCustomers[i] && rows[j].key == sortedCustomers[j];
    }
    forall k ensures k in RowKeys(rows) <==> SowCount(activeContracts, k) > 0 || ResourceCount(activeResources, k) > 0 {
      TablesAfterBothPasses(activeContracts, activeResources, k);
      assert k in RowKeys(rows) <==> k in sowKeys + resourceKeys;
    }
  }

  /** Total SOWs over the rows of a breakdown. */
  function SowTotal(rows: seq<CustomerRow>): nat
    decreases |rows|
  {
    if |rows| == 0 then 0 else SowTotal(rows[..|rows| - 1]) + rows[|rows| - 1].sowCount
  }

  /** Total resources over the rows of a breakdown. */
  function ResourceTotal(rows: seq<CustomerRow>): nat
    decreases |rows|
  {
    if |rows| == 0 then 0 else ResourceTotal(rows[..|rows| - 1]) + rows[|rows| - 1].resourceCount
  }

  lemma {:induction false} TotalsAreGroupSizes(cs: seq<Contract>, rs: seq<Resource>, rows: seq<CustomerRow>)
    requires forall i :: 0 <= i < |rows| ==>
      rows[i].sowCount == SowCount(cs, rows[i].key) && rows[i].resourceCount == ResourceCount(rs, rows[i].key)
    ensures SowTotal(rows) == SumGroupSizes(cs, ContractKey, RowKeys(rows))
    ensures ResourceTotal(rows) == SumGroupSizes(rs, ResourceKey, RowKeys(rows))
    decreases |rows|
  {
    if |rows| > 0 {
      var init := rows[..|rows| - 1];
      assert RowKeys(rows)[..|rows| - 1] == RowKeys(init);
      TotalsAreGroupSizes(cs, rs, init);
    }
  }

  /** The per-customer SOW counts add up to the number of active SOWs and the
      resource counts to the number of active resources: every SOW and every
      resource is counted under exactly one customer. */
  lemma BreakdownTotals(cs: seq<Contract>, rs: seq<Resource>, rows: seq<CustomerRow>)
    requires IsBreakdown(cs, rs, rows)
    ensures SowTotal(rows) == |cs|
    ensures ResourceTotal(rows) == |rs|
  {
    TotalsAreGroupSizes(cs, rs, rows);
    var keys := RowKeys(rows);
    assert Distinct(keys);
    forall i | 0 <= i < |cs| ensures ContractKey(cs[i]) in keys {
      assert cs[i] in KeyFilter(cs, ContractKey, ContractKey(cs[i]));
    }
    forall i | 0 <= i < |rs| ensures ResourceKey(rs[i]) in keys {
      assert rs[i] in KeyFilter(rs, ResourceKey, ResourceKey(rs[i]));
    }
    GroupsPartition(cs, ContractKey, keys);
    GroupsPartition(rs, ResourceKey, keys);
  }

  /** Every customer with a SOW or a resource has a name to show, and it
      upper-cases to the customer's key. */
  lemma DisplayNameSpellsKey(cs: seq<Contract>, rs: seq<Resource>, k: string)
    requires SowCount(cs, k) > 0 || ResourceCount(rs, k) > 0
    ensures DisplayName(cs, rs, k).Some? && Upper(DisplayName(cs, rs, k).value) == k
  {
    TablesAfterBothPasses(cs, rs, k);
    FirstByKeyIsFirst(cs, ContractKey, k);
    FirstByKeyIsFirst(rs, ResourceKey, k);
  }

  /** The name shown for a customer with SOWs is the casing of its first SOW. */
  lemma DisplayNameFromFirstSow(cs: seq<Contract>, rs: seq<Resource>, j: int)
    requires 0 <= j < |cs|
    requires forall i :: 0 <= i < j ==> ContractKey(cs[i]) != ContractKey(cs[j])
    ensures DisplayName(cs, rs, ContractKey(cs[j])) == Some(ContractLabel(cs[j]))
  {
    var k := ContractKey(cs[j]);
    FirstByKeyIsFirst(cs, ContractKey, k);
    var j' :| 0 <= j' < |cs| && FirstByKey(cs, ContractKey, k).value == cs[j'] && ContractKey(cs[j']) == k &&
      forall i :: 0 <= i < j' ==> ContractKey(cs[i]) != k;
    assert !(j' < j) && !(j < j');
  }

  /** The name shown for a customer without SOWs is the casing of its first
      resource. */
  lemma DisplayNameFromFirstResource(cs: seq<Contract>, rs: seq<Resource>, j: int)
    requires 0 <= j < |rs|
    requires forall i :: 0 <= i < |cs| ==> ContractKey(cs[i]) != ResourceKey(rs[j])
    requires forall i :: 0 <= i < j ==> ResourceKey(rs[i]) != ResourceKey(rs[j])
    ensures DisplayName(cs, rs, ResourceKey(rs[j])) == Some(ResourceLabel(rs[j]))
  {
    var k := ResourceKey(rs[j]);
    FirstByKeyIsFirst(cs, ContractKey, k);
    FirstByKeyIsFirst(rs, ResourceKey, k);
    var j' :| 0 <= j' < |rs| && FirstByKey(rs, ResourceKey, k).value == rs[j'] && ResourceKey(rs[j']) == k &&
      forall i :: 0 <= i < j' ==> ResourceKey(rs[i]) != k;
    assert !(j' < j) && !(j < j');
  }

  /** Two breakdowns of the same records are the same: the rows are fully
      determined by the keys, and the keys by their ascending order. */
  lemma BreakdownUnique(cs: seq<Contract>, rs: seq<Resource>, a: seq<CustomerRow>, b: seq<CustomerRow>)
    requires IsBreakdown(cs, rs, a) && IsBreakdown(cs, rs, b)
    ensures a == b
  {
    var ka, kb := RowKeys(a), RowKeys(b);
    assert forall k :: k in ka <==> k in kb;
    StrictlyAscendingUnique(ka, kb);
    assert |a| == |b|;
    forall i | 0 <= i < |a| ensures a[i] == b[i] {
      assert ka[i] == kb[i];
    }
  }

  /** Two strictly ascending sequences with the same elements are equal. */
  lemma {:induction false} StrictlyAscendingUnique(a: seq<string>, b: seq<string>)
    requires forall i, j :: 0 <= i < j < |a| ==> StrLe(a[i], a[j]) && a[i] != a[j]
    requires forall i, j :: 0 <= i < j < |b| ==> StrLe(b[i], b[j]) && b[i] != b[j]
    requires forall k :: k in a <==> k in b
    ensures a == b
    decreases |a|
  {
    if |b| > 0 {
      assert b[0] in b;
    }
    if |a| > 0 {
      assert a[0] in b;
      assert |b| > 0;
      if a[0] != b[0] {
        assert b[0] in a;
        var p :| 0 <= p < |a| && a[p] == b[0];
        var q :| 0 <= q < |b| && b[q] == a[0];
        StrLeAntisymmetric(a[0], b[0]);
        assert false;
      }
      assert a[0] == b[0];
      forall k ensures k in a[1..] <==> k in b[1..] {
        if k in a[1..] {
          var p :| 0 <= p < |a| - 1 && a[1..][p] == k;
          assert a[0] != a[p + 1];
          assert k in b && k != b[0];
          assert b == [b[0]] + b[1..];
        }
        if k in b[1..] {
          var q :| 0 <= q < |b| - 1 && b[1..][q] == k;
          assert b[0] != b[q + 1];
          assert k in a && k != a[0];
          assert a == [a[0]] + a[1..];
        }
      }
      StrictlyAscendingUnique(a[1..], b[1..]);
      assert a == [a[0]] + a[1..] && b == [b[0]] + b[1..];
    }
  }

  function NamedSow(name: string): Contract {
    Contract("c", Some(name), None, None, None, None, None, None)
  }

  /** "Acme" and then "ACME" are one customer with two SOWs, shown as "Acme";
      a SOW without a customer name belongs to "Unknown". */
  lemma ExampleCasing()
    ensures SowCount([NamedSow("Acme"), NamedSow("ACME")], "ACME") == 2
    ensures DisplayName([NamedSow("Acme"), NamedSow("ACME")], [], "ACME") == Some("Acme")
    ensures ContractKey(Contract("c", None, None, None, None, None, None, None)) == "UNKNOWN"
  {
    var cs := [NamedSow("Acme"), NamedSow("ACME")];
    assert Upper("Acme") == "ACME";
    assert Upper("ACME") == "ACME";
    assert Upper("Unknown") == "UNKNOWN";
    assert cs[..1] == [NamedSow("Acme")];
    assert [NamedSow("Acme")][..0] == [];
  }
}
