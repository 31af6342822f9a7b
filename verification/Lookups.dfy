/** Results of upstream lookups (src/dns_error.rs). */
module Lookups {
  import opened Common
  import opened Messages

  /** A lookup's answer or error; a timeout is one more error. */
  datatype LookupResult =
    | Answer(response: Response)
    | CodeError(rcode: ResponseCode)
    | NoRecords(rcode: ResponseCode, soa: Option<Record>)
    | OtherError(reason: string)

  /** A NODATA or NXDOMAIN reply that came as an error, rather than an upstream failure. */
  predicate IsNegativeError(r: LookupResult) {
    match r
    case CodeError(code) => code == NX_DOMAIN
    case NoRecords(code, _) => code == NX_DOMAIN || code == NO_ERROR
    case _ => false
  }

  /** An answer or a NODATA or NXDOMAIN reply. */
  predicate IsValidResponse(r: LookupResult) {
    match r
    case Answer(response) => response.message.header.rcode == NO_ERROR || response.message.header.rcode == NX_DOMAIN
    case _ => IsNegativeError(r)
  }
}
