/** What becomes of one remote call. */
module RemoteCalls {
  /** `Done` is answered truthfully; `Failed` had no effect; `Lost` took effect,
      but its reply was an error. */
  datatype Outcome = Done | Failed | Lost
}
