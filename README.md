# TAHIP request engine in Dafny

Task-Aware HIP (TAHIP) lets a task issue an asynchronous HIP operation without
blocking. Each operation gets a request: a HIP event recorded on the operation's
stream. A request is bound to the calling task's event counter, and binding raises
that counter by one. The bound request is pushed onto a bounded ingress queue.
A poller then runs `checkRequests`. It drains the queue into a pending list and
queries each pending request's event. When an event is complete, the poller lowers
the bound counter by one, destroys the event, frees the request and erases it from
the list.

This project models the engine (`RequestManager` in
`src/common/RequestManager.hpp`), the two public calls that hand deferred
requests to it (`src/c/Requests.cpp`) and the common caller pattern of the
asynchronous operations (`src/c/MemoryOperations.cpp`).

- `types.dfy` (`TahipTypes`): identifiers, the `Option` used for nullable
  handles, HIP status codes and the queue capacity 63*1024.
- `request_model.dfy` (`RequestModel`): the `Request` record. It also holds the
  value-level functions that specify the engine: binding, counter adjustment,
  the drain (`Drained`), the scan's kept and retired lists (`Keep`, `Retired`),
  and the count of tracked requests bound to a counter (`BoundTo`). The lemmas
  about these functions live here too.
- `engine.dfy` (`EngineModel`): the engine state as one value, its invariant,
  and one lemma per operation showing that the operation keeps the invariant.
- `request_manager.dfy` (`RequestManagement`): the class `RequestManager`. Its
  fields are the static state: the allocator's live slots, `_addQueue`,
  `_pendingRequests` and the engine's net change to each counter. Each static
  function of the source is a method with `modifies this`, proved against the
  functions above. The private push helpers `AddRequest`, `PushSome` and
  `AddRequests` do not keep `Valid()` on their own, since a bare push queues an
  entry that is not yet bound; their callers (`ProcessRequest`,
  `ProcessRequests`, `GenerateRequest`) bind first and restore it. Every other
  method keeps `Valid()`.
- `requests_api.dfy` (`TahipRequests`): `tahipWaitRequestAsync` over a handle
  object, `tahipWaitallRequestsAsync` over an array, and the generic
  asynchronous operation.

The invariant (`EngineModel.Invariant`) says the following:
- Every live request has a recorded event.
- Every tracked request (pending, or non-null in the queue) is live and bound.
- Every bound live request is tracked.
- No request is tracked twice.
- Conservation: for each counter, the engine's increments minus its decrements
  equal the number of tracked requests bound to it.

Because only tracked requests are queried and tracked requests are live, a freed
request is never queried again.

Notes on the code's behaviour:
- `processRequests` pushes all `count` entries, nulls included, to the queue,
  not just the non-null ones. Nulls are dropped only when the queue is drained.
- `processRequests` asserts `count > 0`. Only `tahipWaitallRequestsAsync`
  treats `count == 0` as a no-op.
- The request's `_stream` field is never written. The stream appears in the
  model only as the stream the event was recorded on.

## Model

| member | source | states |
|---|---|---|
| RequestModel.NewRequest | src/common/RequestManager.hpp:39-42 | a freshly constructed request is unbound and has no event yet |
| RequestModel.Adjusted | src/common/RequestManager.hpp:153 | adjusting a counter changes that counter by exactly `delta` and leaves every other counter unchanged |
| RequestModel.BindAllEffect | src/common/RequestManager.hpp:146-152 | binding a list of requests sets each listed live request's counter to `c`; unlisted requests and all events are unchanged |
| RequestModel.DrainedMembers | src/common/RequestManager.hpp:161-166 | a request comes out of the drain exactly when it was queued as a non-null entry; nulls never come out |
| RequestModel.DrainedAppend | src/common/RequestManager.hpp:161-166 | draining is FIFO: draining two queue segments one after the other gives the drain of the first followed by the drain of the second |
| RequestModel.KeepMembers | src/common/RequestManager.hpp:171-193 | a request stays pending after the scan exactly when it was pending and its event is not ready |
| RequestModel.RetiredMembers | src/common/RequestManager.hpp:178-190 | a request is retired exactly when it was pending and its event is ready |
| RequestModel.KeepRetiredPartition | src/common/RequestManager.hpp:171-193 | the kept and retired requests together are exactly the scanned ones, as a multiset: none is lost or duplicated |
| RequestModel.BoundToPartition | src/common/RequestManager.hpp:178-192 | for each counter, the requests bound to it split between the kept and the retired ones |
| RequestModel.ReleasedValue | src/common/RequestManager.hpp:179-180 | releasing retired requests lowers each counter by the number of them bound to it, once each |
| RequestModel.DistinctKeep | src/common/RequestManager.hpp:189 | erasing from a duplicate-free pending list leaves it duplicate-free |
| RequestModel.AllReadyRetiresAll | src/common/RequestManager.hpp:171-193 | when every pending event is ready, the scan empties the list and retires all of it in order |
| RequestModel.NoneReadyKeepsAll | src/common/RequestManager.hpp:171-193 | when no pending event is ready, the scan keeps the whole list in order and retires nothing |
| RequestModel.BoundToZeroIff | src/common/RequestManager.hpp:179-180 | no tracked request is bound to a counter exactly when the count of those bound to it is zero |
| RequestModel.BoundToFrame | src/common/RequestManager.hpp:187 | changing slots other than the listed requests' bindings does not change any counter's bound count |
| RequestModel.BoundToUniform | src/common/RequestManager.hpp:146-153 | if every listed request is bound to `c0`, the count for `c0` is the list length and the count for any other counter is zero |
| RequestModel.ConservedAfterBind | src/common/RequestManager.hpp:146-155 | binding untracked live requests to `c0`, raising `c0` by their number and tracking them keeps conservation |
| RequestModel.ConservedAfterScan | src/common/RequestManager.hpp:178-190 | lowering each retired request's counter once, freeing the retired requests and keeping the rest keeps conservation |
| EngineModel.InitialInvariant | src/common/RequestManager.hpp:53-60 | the initial static state (nothing live, queued or pending) satisfies the invariant |
| EngineModel.AllocKeepsInvariant | src/common/RequestManager.hpp:94-106 | allocating a fresh slot whose event is recorded, without binding it, keeps the invariant |
| EngineModel.SubmitKeepsInvariant | src/common/RequestManager.hpp:137-156 | binding distinct unbound live entries to `c`, raising `c` by their number and pushing all entries keeps the invariant |
| EngineModel.SubmitOneKeepsInvariant | src/common/RequestManager.hpp:122-135 | binding one unbound live request, raising its counter by one and pushing it keeps the invariant |
| EngineModel.DrainKeepsInvariant | src/common/RequestManager.hpp:160-167 | moving the queue's non-null entries to the end of the pending list keeps the invariant |
| EngineModel.ScanKeepsInvariant | src/common/RequestManager.hpp:171-193 | retiring the ready pending requests with their counter decrements, and keeping the others in order, keeps the invariant |
| EngineModel.CounterAtBaseline | src/common/RequestManager.hpp:179-180 | under the invariant, a counter's engine contribution is zero exactly when none of its bound requests is still tracked |
| RequestManagement.RequestManager.constructor | src/common/RequestManager.hpp:53-60 | the static state starts with no live, queued or pending request and satisfies the invariant |
| RequestManagement.RequestManager.AddRequest | src/common/RequestManager.hpp:65-72 | one entry is appended to the ingress queue and nothing else changes |
| RequestManagement.RequestManager.PushSome | src/common/RequestManager.hpp:82 | a batch push appends the longest prefix that fits; it is either the whole batch or it fills the queue |
| RequestManagement.RequestManager.AddRequests | src/common/RequestManager.hpp:77-85 | the retry loop appends all entries, nulls included, in array order; nothing else changes |
| RequestManagement.RequestManager.GenerateRequest | src/common/RequestManager.hpp:92-120 | a fresh slot is allocated with its event recorded on `stream`. With `bind` it is bound to `current`, `current` rises by exactly 1 and exactly that request is queued. Without `bind` it stays unbound and no counter or queue changes. The invariant is kept |
| RequestManagement.RequestManager.ProcessRequest | src/common/RequestManager.hpp:122-135 | an unbound live request is bound to `current`, `current` rises by exactly 1 and the request is queued once; the invariant is kept |
| RequestManagement.BindEntries | src/common/RequestManager.hpp:145-152 | the loop binds exactly the non-null entries, each still unbound when reached, and counts them |
| RequestManagement.RequestManager.ProcessRequests | src/common/RequestManager.hpp:137-156 | needs `count > 0`. Every non-null entry is bound to `current`, `current` rises by exactly their number, and all entries, nulls included, are queued in order. The invariant is kept |
| RequestManagement.RequestManager.DrainAddQueue | src/common/RequestManager.hpp:160-167 | the pending list gains the queue's non-null entries in FIFO order, the queue ends empty, and nothing else changes |
| RequestManagement.ScanList | src/common/RequestManager.hpp:169-193 | the scan keeps the not-ready requests in order, frees exactly the ready ones, and lowers each counter by the number of ready requests bound to it |
| RequestManagement.RequestManager.CheckRequests | src/common/RequestManager.hpp:158-194 | drain then scan. The queue ends empty and pending holds the not-ready tracked requests in order. Exactly the ready ones are freed, each counter drops by its number of ready requests, and the invariant is kept |
| RequestManagement.RequestManager.CounterAtBaseline | src/common/RequestManager.hpp:179-180 | a counter's engine contribution is zero exactly when none of its requests is still queued or pending |
| TahipRequests.WaitRequestAsync | src/c/Requests.cpp:19-30 | needs a non-null handle. A held request is processed exactly once; a null one changes no counter or queue. The handle ends null and the result is `hipSuccess` |
| TahipRequests.WaitallRequestsAsync | src/c/Requests.cpp:32-47 | with `count == 0` nothing changes. Otherwise the first `count` entries go to `processRequests` and are then all set to null, later entries untouched. Always `hipSuccess` |
| TahipRequests.AsyncOperation | src/c/MemoryOperations.cpp:19-37 | a failed HIP call's error is returned and nothing changes. Otherwise a request is generated on `stream`, bound and queued exactly when no handle was passed, and stored unbound in the handle otherwise |

## Left out

- Concurrency: the `SpinLock` around pushes and the lock-free single-consumer queue are not modelled. A push under the lock is one atomic step, and the poller runs alone.
- RequestManagement.RequestManager.AddRequest: requires room in the queue. The source spins until the poller makes room, which a sequential model cannot express. The same requirement appears on `AddRequests`, `GenerateRequest` (with `bind`), `ProcessRequest`, `ProcessRequests`, `TahipRequests.WaitRequestAsync`, `TahipRequests.WaitallRequestsAsync` and `TahipRequests.AsyncOperation` (successful HIP call without a handle).
- `Allocator<Request>` is not part of this model. Allocation hands out a fresh slot number and never reuses a freed one, so the model does not capture slot reuse.
- HIP events are an oracle: `CheckRequests` takes `query`, standing for `hipEventQuery`. A query result other than success or not-ready is a fatal abort in the source, so `CheckRequests` requires it not to happen for tracked requests. Failures of `hipEventCreate`, `hipEventRecord` and `hipEventDestroy` are fatal aborts and are not modelled.
- `TaskingModel` is not part of this model. The current task's counter is the parameter `current`, and a counter is an opaque identifier. The `counters` field records only the engine's own net change to each counter, not the runtime's counter value.
- RequestManagement.ScanList: the scan works on the pending list, slot map and counter table as values, which `CheckRequests` then stores back into the fields. The source erases list nodes in place, and that update in place and its aliasing are not captured. The observable result is the same because only the poller touches these structures.
- The intrusive list hooks (`_listLinks`) and pointer casts are representation details, not modelled; requests are slot numbers.
- The source's debug `assert`s that a pointer is non-null are not modelled, except two that are preconditions: the handle pointer of `tahipWaitRequestAsync` (`TahipRequests.WaitRequestAsync` requires `request != null`) and the array of `tahipWaitallRequestsAsync` when `count > 0` (`TahipRequests.WaitallRequestsAsync` requires `requests != null`). Request identifiers cannot be null.
- `tahipMemsetAsync` follows the same pattern as `tahipMemcpyAsync` and is covered by `TahipRequests.AsyncOperation`. The other forwarding shims (`src/c/Operations.cpp`, `src/c/hipBLASOperations.cpp`) are not part of this model.
- Stream pool, environment setup and initialisation are not part of this model.
