/** The exceptions and exit paths of the exporter, as values. */
module Errors {

  /** Why a run of the exporter stops early. */
  datatype Failure =
    | CookieWithoutValue(piece: string)   // `y[1]` raises IndexError for a cookie piece with no '='
    | ListingWithoutRows(start: int)      // the listing has no row element: KeyError on 'viewentry'
    | ListingSingleRow(start: int)        // one row parses as a dict; indexing its key strings raises TypeError
    | MissingMandatoryOptions             // `exit(9)`: no mail file or no cookies

  datatype Result<T> = Ok(value: T) | Err(failure: Failure)
}
