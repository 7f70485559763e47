/** The stored catalog: one `Record` per row of the `mdrm_data` table. A
    field that is `None` holds SQL NULL (a missing CSV cell, or a date pandas
    could not parse). */
module Catalog {
  import opened Wrappers

  /** A calendar date, as a day number: only the order of dates matters to
      the statistics and to the search ordering. */
  type Date = int

  /** One row of `mdrm_data`. `id` is the AUTOINCREMENT key; the
      `created_at` timestamp is not modelled. */
  datatype Record = Record(
    id: nat,
    mdrmIdentifier: Option<string>,
    mnemonic: Option<string>,
    itemCode: Option<string>,
    startDate: Option<Date>,
    endDate: Option<Date>,
    itemName: Option<string>,
    confidentiality: Option<string>,
    itemType: Option<string>,
    reportingForm: Option<string>,
    description: Option<string>,
    seriesGlossary: Option<string>)
}
