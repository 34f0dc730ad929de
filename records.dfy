/** The record sets the dashboard receives from its API, already parsed.
    Only the fields the computations read are kept. An `Option` field is one
    the API may leave out or send as null. Text fields may also be "", which
    the `|| fallback` reads treat like a missing value (see `TextOr`); for
    `sowValue` None also stands for "", which `|| 0` turns into 0, and for a
    date None also stands for "", which `parseDate` rejects. A present
    `marginPercentage` is a number: an empty margin, which the source counts
    as a contractor with a NaN margin, is not represented. Ids are the opaque
    keys of the source of record, used as object keys (hence strings). */
module Records {
  import opened Wrappers
  import opened Dates

  type Id = string

  /** A statement of work (SOW). */
  datatype Contract = Contract(
    contractId: Id,
    customerName: Option<string>,
    serviceName: Option<string>,
    sowReference: Option<string>,
    sowValue: Option<real>,
    startDate: Option<Date>,
    endDate: Option<Date>,
    status: Option<string>)

  datatype PurchaseOrder = PurchaseOrder(
    poId: Id,
    contractId: Id,
    serviceName: Option<string>,
    periodStartText: Option<string>,   // compared as text only
    periodEndDate: Option<Date>,
    poStatus: Option<string>)

  datatype Resource = Resource(
    resourceId: Id,
    customerName: Option<string>,
    jobTitle: Option<string>,
    isActive: bool,
    marginPercentage: Option<real>)

  /** An assignment of a resource to a PO. */
  datatype Mapping = Mapping(
    poId: Id,
    resourceId: Id,
    status: Option<string>)

  datatype Risk = Risk(
    reference: Option<string>,
    ragStatus: Option<string>)

  /** An audit entry; `timestamp` is its instant in milliseconds, None when the
      text does not parse. */
  datatype AuditRecord = AuditRecord(
    timestamp: Option<int>,
    tableName: Option<string>,
    operation: Option<string>,
    fieldName: Option<string>)

  /** `field || fallback` on a text field: null, undefined and "" all fall back. */
  function TextOr(field: Option<string>, fallback: string): (r: string)
    ensures field.Some? && field.value != "" ==> r == field.value
    ensures field.None? || field.value == "" ==> r == fallback
  {
    match field
    case Some(v) => if v == "" then fallback else v
    case None => fallback
  }

  /** `parseFloat(c.sow_value_gbp || 0)`. */
  function SowValue(c: Contract): real {
    c.sowValue.GetOr(0.0)
  }
}
