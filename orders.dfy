/** The row orders of the SOW, PO, resource and hierarchy views. Each sorts a
    copy of its records by a text field and then, among records the first
    field does not separate, by a second one, comparing with `localeCompare`
    on `field || ''`. The locale's collation is the parameter `collate`:
    `collate(a, b)` holds when a sorts no later than b (`a.localeCompare(b) <= 0`). */
module Orders {
  import opened Wrappers
  import opened Records
  import opened Sorting

  /** `(x.f || '').localeCompare(y.f || '')` for two text fields f, then g. */
  predicate TwoKeyLe<T>(collate: (string, string) -> bool, f: T -> string, g: T -> string, a: T, b: T) {
    && collate(f(a), f(b))
    && (collate(f(b), f(a)) ==> collate(g(a), g(b)))
  }

  /** The comparator passed to `sort`. */
  function TwoKeyOrder<T>(collate: (string, string) -> bool, f: T -> string, g: T -> string): (T, T) -> bool {
    (a: T, b: T) => TwoKeyLe(collate, f, g, a, b)
  }

  lemma TwoKeyLeIsTotalPreorder<T(!new)>(collate: (string, string) -> bool, f: T -> string, g: T -> string)
    requires TotalPreorder(collate)
    ensures TotalPreorder(TwoKeyOrder(collate, f, g))
  {
  }

  /** The comparator ranks two records equal exactly when both of their keys
      collate equal. */
  lemma TwoKeyTies<T>(collate: (string, string) -> bool, f: T -> string, g: T -> string, y: T, z: T)
    ensures Tied(TwoKeyOrder(collate, f, g), z)(y) <==>
      collate(f(y), f(z)) && collate(f(z), f(y)) && collate(g(y), g(z)) && collate(g(z), g(y))
  {
  }

  /** A copy of s sorted by f and then g: the same records, with f ascending,
      among records equal under f with g ascending, and records equal under
      both keys in their input order. */
  function SortByTwoKeys<T(!new)>(s: seq<T>, collate: (string, string) -> bool, f: T -> string, g: T -> string): (r: seq<T>)
    requires TotalPreorder(collate)
    ensures multiset(r) == multiset(s)
    ensures forall i, j :: 0 <= i < j < |r| ==> collate(f(r[i]), f(r[j]))
    ensures forall i, j :: 0 <= i < j < |r| && collate(f(r[j]), f(r[i])) ==> collate(g(r[i]), g(r[j]))
    ensures Stable(r, s, TwoKeyOrder(collate, f, g))
  {
    TwoKeyLeIsTotalPreorder(collate, f, g);
    Sort(s, TwoKeyOrder(collate, f, g))
  }

  function CustomerText(c: Contract): string { TextOr(c.customerName, "") }
  function ServiceText(c: Contract): string { TextOr(c.serviceName, "") }
  function ReferenceText(c: Contract): string { TextOr(c.sowReference, "") }
  function PoServiceText(po: PurchaseOrder): string { TextOr(po.serviceName, "") }
  function PoStartText(po: PurchaseOrder): string { TextOr(po.periodStartText, "") }
  function ResourceCustomerText(r: Resource): string { TextOr(r.customerName, "") }
  function JobTitleText(r: Resource): string { TextOr(r.jobTitle, "") }

  /** The SOW table: by customer, then by service name. */
  function SortedSows(cs: seq<Contract>, collate: (string, string) -> bool): (r: seq<Contract>)
    requires TotalPreorder(collate)
    ensures multiset(r) == multiset(cs)
    ensures forall i, j :: 0 <= i < j < |r| ==> collate(CustomerText(r[i]), CustomerText(r[j]))
    ensures forall i, j :: 0 <= i < j < |r| && collate(CustomerText(r[j]), CustomerText(r[i])) ==>
      collate(ServiceText(r[i]), ServiceText(r[j]))
    ensures Stable(r, cs, TwoKeyOrder(collate, CustomerText, ServiceText))
  {
    SortByTwoKeys(cs, collate, CustomerText, ServiceText)
  }

  /** The PO table: by service name, then by the period start date compared
      as text (the `DD/MM/YYYY` text, not the date). */
  function SortedPos(pos: seq<PurchaseOrder>, collate: (string, string) -> bool): (r: seq<PurchaseOrder>)
    requires TotalPreorder(collate)
    ensures multiset(r) == multiset(pos)
    ensures forall i, j :: 0 <= i < j < |r| ==> collate(PoServiceText(r[i]), PoServiceText(r[j]))
    ensures forall i, j :: 0 <= i < j < |r| && collate(PoServiceText(r[j]), PoServiceText(r[i])) ==>
      collate(PoStartText(r[i]), PoStartText(r[j]))
    ensures Stable(r, pos, TwoKeyOrder(collate, PoServiceText, PoStartText))
  {
    SortByTwoKeys(pos, collate, PoServiceText, PoStartText)
  }

  /** The resource table: by customer, then by job title. */
  function SortedResources(rs: seq<Resource>, collate: (string, string) -> bool): (r: seq<Resource>)
    requires TotalPreorder(collate)
    ensures multiset(r) == multiset(rs)
    ensures forall i, j :: 0 <= i < j < |r| ==> collate(ResourceCustomerText(r[i]), ResourceCustomerText(r[j]))
    ensures forall i, j :: 0 <= i < j < |r| && collate(ResourceCustomerText(r[j]), ResourceCustomerText(r[i])) ==>
      collate(JobTitleText(r[i]), JobTitleText(r[j]))
    ensures Stable(r, rs, TwoKeyOrder(collate, ResourceCustomerText, JobTitleText))
  {
    SortByTwoKeys(rs, collate, ResourceCustomerText, JobTitleText)
  }

  /** The hierarchy: SOWs by customer, then by SOW reference. */
  function SortedHierarchy(cs: seq<Contract>, collate: (string, string) -> bool): (r: seq<Contract>)
    requires TotalPreorder(collate)
    ensures multiset(r) == multiset(cs)
    ensures forall i, j :: 0 <= i < j < |r| ==> collate(CustomerText(r[i]), CustomerText(r[j]))
    ensures forall i, j :: 0 <= i < j < |r| && collate(CustomerText(r[j]), CustomerText(r[i])) ==>
      collate(ReferenceText(r[i]), ReferenceText(r[j]))
    ensures Stable(r, cs, TwoKeyOrder(collate, CustomerText, ReferenceText))
  {
    SortByTwoKeys(cs, collate, CustomerText, ReferenceText)
  }

  /** The SOWs of one customer stay together: a SOW between two whose
      customers collate as equal has a customer equal to theirs. */
  lemma CustomersContiguous(cs: seq<Contract>, collate: (string, string) -> bool, i: int, j: int, k: int)
    requires TotalPreorder(collate)
    requires 0 <= i < j < k < |SortedSows(cs, collate)|
    requires var r := SortedSows(cs, collate);
      collate(CustomerText(r[k]), CustomerText(r[i]))
    ensures var r := SortedSows(cs, collate);
      collate(CustomerText(r[j]), CustomerText(r[i])) && collate(CustomerText(r[k]), CustomerText(r[j]))
  {
    var r := SortedSows(cs, collate);
    var a, b, c := CustomerText(r[i]), CustomerText(r[j]), CustomerText(r[k]);
    assert collate(a, b) && collate(b, c);
    assert collate(b, c) && collate(c, a) ==> collate(b, a);
    assert collate(c, a) && collate(a, b) ==> collate(c, b);
  }
}
