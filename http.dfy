/** What the scrapers use of an HTTP response's status. */
module Http {

  /** `requests`' `raise_for_status` raises on the client (4xx) and server
      (5xx) error codes and on no other status. */
  predicate IsErrorStatus(status: int) {
    400 <= status < 600
  }
}
