/**
 * Shared vocabulary of the Task-Aware HIP request engine: handles are plain
 * identifiers, a null pointer is `None`, and HIP status codes are a datatype.
 */
module TahipTypes {

  /** A nullable handle: `None` stands for a null pointer / TAHIP_REQUEST_NULL. */
  datatype Option<+T> = None | Some(value: T)

  /** Slot of a request in the request allocator's arena. */
  type ReqId = nat

  /** Opaque identity of a task's event counter (the non-null `void *` the runtime hands out). */
  type CounterId = nat

  /** Opaque identity of a HIP stream. */
  type StreamId = nat

  /** The HIP status codes the engine distinguishes. */
  datatype HipError = HipSuccess | HipErrorNotReady | HipErrorOther(code: int)

  /** Capacity of the lock-free ingress queue (`boost::lockfree::capacity<63*1024>`). */
  const AddQueueCapacity: nat := 63 * 1024
}
