/**
 * The C entry points that hand requests back to the engine
 * (src/c/Requests.cpp), and the caller-side pattern every asynchronous TAHIP
 * operation follows (src/c/MemoryOperations.cpp): issue the HIP call, then
 * generate a request for the stream, bound to the calling task exactly when
 * the caller asked for no request handle.
 */
module TahipRequests {
  import opened TahipTypes
  import opened RequestModel
  import opened RequestManagement

  /** A `tahipRequest` variable the caller owns: `None` is TAHIP_REQUEST_NULL. */
  class RequestHandle {
    var value: Option<ReqId>

    constructor (value: Option<ReqId>)
      ensures this.value == value
    {
      this.value := value;
    }
  }

  /**
   * `tahipWaitRequestAsync`: a non-null request is bound to the calling task
   * (whose event counter is `current`) and submitted; the caller's handle is
   * reset to TAHIP_REQUEST_NULL in every case.
   */
  method WaitRequestAsync(m: RequestManager, request: RequestHandle?, current: CounterId) returns (ret: HipError)
    requires request != null
    requires m.Valid()
    requires request.value.Some? ==>
               request.value.value in m.slots && m.slots[request.value.value].counter == None &&
               |m.addQueue| < AddQueueCapacity
    modifies m, request
    ensures ret == HipSuccess
    ensures request.value == None
    ensures m.Valid()
    ensures old(request.value) == None ==>
              m.slots == old(m.slots) && m.counters == old(m.counters) && m.addQueue == old(m.addQueue)
    ensures old(request.value).Some? ==>
              var id := old(request.value).value;
              m.slots == Bind(old(m.slots), id, current) &&
              m.counters == Adjusted(old(m.counters), current, 1) &&
              m.addQueue == old(m.addQueue) + [Some(id)]
    ensures m.pending == old(m.pending) && m.nextSlot == old(m.nextSlot)
  {
    if request.value.Some? {
      m.ProcessRequest(request.value.value, current);
    }
    request.value := None;
    ret := HipSuccess;
  }

  /**
   * `tahipWaitallRequestsAsync`: with no requests it does nothing; otherwise
   * the first `count` handles of `requests`, nulls included, go to
   * `processRequests` and are then all reset to TAHIP_REQUEST_NULL.
   */
  method WaitallRequestsAsync(m: RequestManager, count: nat, requests: array?<Option<ReqId>>, current: CounterId)
    returns (ret: HipError)
    requires count > 0 ==> requests != null && count <= requests.Length
    requires count > 0 ==> m.Valid()
    requires count > 0 ==>
               (forall id :: Some(id) in requests[..count] ==> id in m.slots && m.slots[id].counter == None) &&
               Distinct(Drained(requests[..count])) &&
               |m.addQueue| + count <= AddQueueCapacity
    modifies m, requests
    ensures ret == HipSuccess
    ensures count == 0 ==> unchanged(m) && (requests != null ==> unchanged(requests))
    ensures count > 0 ==> m.Valid()
    ensures count > 0 ==>
              var entries := old(requests[..count]);
              m.slots == BindAll(old(m.slots), Drained(entries), current) &&
              m.counters == Adjusted(old(m.counters), current, |Drained(entries)|) &&
              m.addQueue == old(m.addQueue) + entries
    ensures count > 0 ==> m.pending == old(m.pending) && m.nextSlot == old(m.nextSlot)
    ensures count > 0 ==> forall r :: 0 <= r < count ==> requests[r] == None
    ensures count > 0 ==> requests[count..] == old(requests[count..])
  {
    if count == 0 {
      return HipSuccess;
    }
    m.ProcessRequests(requests[..count], current);
    for r := 0 to count
      modifies requests
      invariant forall k :: 0 <= k < r ==> requests[k] == None
      invariant requests[count..] == old(requests[count..])
    {
      requests[r] := None;
    }
    ret := HipSuccess;
  }

  /**
   * An asynchronous TAHIP operation (`tahipMemcpyAsync`, `tahipMemsetAsync`):
   * `opResult` is what the underlying HIP call returned. On failure that error
   * is returned and nothing else happens. On success a request recorded on
   * `stream` is generated; without a handle it is bound to the calling task and
   * submitted, with one it stays unbound and is stored in the handle.
   */
  method AsyncOperation(m: RequestManager, opResult: HipError, stream: StreamId, requestPtr: RequestHandle?,
                        current: CounterId)
    returns (ret: HipError)
    requires m.Valid()
    requires opResult == HipSuccess && requestPtr == null ==> |m.addQueue| < AddQueueCapacity
    modifies m, requestPtr
    ensures ret == opResult
    ensures opResult != HipSuccess ==> unchanged(m) && (requestPtr != null ==> unchanged(requestPtr))
    ensures m.Valid()
    ensures opResult == HipSuccess ==>
              m.nextSlot == old(m.nextSlot) + 1 && old(m.nextSlot) !in old(m.slots) &&
              m.slots == old(m.slots)[old(m.nextSlot) := Request(Recorded(stream),
                                                         if requestPtr == null then Some(current) else None)] &&
              m.pending == old(m.pending)
    ensures opResult == HipSuccess && requestPtr == null ==>
              m.counters == Adjusted(old(m.counters), current, 1) &&
              m.addQueue == old(m.addQueue) + [Some(old(m.nextSlot))]
    ensures opResult == HipSuccess && requestPtr != null ==>
              requestPtr.value == Some(old(m.nextSlot)) &&
              m.counters == old(m.counters) && m.addQueue == old(m.addQueue)
  {
    if opResult != HipSuccess {
      return opResult;
    }
    var id := m.GenerateRequest(stream, requestPtr == null, current);
    if requestPtr != null {
      requestPtr.value := Some(id);
    }
    ret := HipSuccess;
  }
}
