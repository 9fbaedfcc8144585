/** The sizes of the structures that more than one component has to agree on. */
module Capacities {
  const ROB_CAP: nat := 16
  const REGISTER_CAP: nat := 32
  const PRF_CAP: nat := ROB_CAP + REGISTER_CAP
  const CKPT_CAP: nat := 32
  const QUEUE_CAP: nat := 8
  const REQUEST_CAP: nat := 4
  const FQ_CAP: nat := 4
  const IQ_CAP: nat := 4

  /** Fetched instructions that have not been issued: in the instruction cache, the fetch queue or the decode queue. */
  const FRONT_CAP: nat := REQUEST_CAP + (FQ_CAP - 1) + (IQ_CAP - 1)
}
