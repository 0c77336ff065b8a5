/** What an attempted database transaction meets. */
module Attempts {
  /**
   It commits; it loses to lock contention (SQLSTATE 55P03 or 40P01), which is retried; it fails for
   good; or it commits and the connection is lost before the client hears of it, which to the client
   is a failure that is not retried.
   */
  datatype Outcome = Goes | Contended | Fails | Unheard
}
