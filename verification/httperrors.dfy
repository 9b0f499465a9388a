/** The sentinel errors the core reports; each maps to a client-error response. */
module HttpErrors {

  datatype Error =
    | InvalidPeriod
    | InvalidTimezone
    | InvalidStartPoint
    | InvalidEndPoint
}
