/**
 * The invoice fields the core reads. A POS Invoice and a Sales Invoice expose
 * the same fields, so one datatype stands for both.
 */
module Invoices {
  import opened Wrappers

  datatype Invoice = Invoice(
    name: string,
    company: string,
    postingDate: string,
    postingTime: string,
    grandTotal: string,             // already rendered by `str()`
    totalTaxesAndCharges: string,   // already rendered by `str()`
    branch: Option<string>,
    customer: string)
}
