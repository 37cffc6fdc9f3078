/** Calls to another process. */
module Remote {

  /** How a call ends: done; failed without effect; or failed although it took effect. */
  datatype Rpc = Done | Lost | LostReply
}
