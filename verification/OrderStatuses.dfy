/** Order statuses and which of them end an order. */
module OrderStatuses {
  datatype OrderStatus =
    | Unknown | Submitted | Pending | Cancelled | Error | Filled | PartialFilledNotActive | PartialFilledActive | Lost

  predicate IsFinal(s: OrderStatus) {
    !(s.Submitted? || s.Pending? || s.PartialFilledActive? || s.Unknown?)
  }
}
