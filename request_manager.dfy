/**
 * The TAHIP `RequestManager` (src/common/RequestManager.hpp) as a class whose
 * fields are the process-wide static state: the request allocator's live slots,
 * the bounded ingress queue `_addQueue`, the pending list `_pendingRequests`
 * and the engine's contribution to each task event counter.
 *
 * Producers call `GenerateRequest`, `ProcessRequest` and `ProcessRequests`; the
 * poller calls `CheckRequests`. A push under `_addQueueLock` is one atomic step.
 */
module RequestManagement {
  import opened TahipTypes
  import opened RequestModel
  import opened EngineModel

  /**
   * The binding loop of `processRequests`: every non-null entry, each still
   * unbound, is bound to `current`; `nactive` counts them.
   */
  method BindEntries(slots: map<ReqId, Request>, entries: seq<Option<ReqId>>, current: CounterId)
    returns (bound: map<ReqId, Request>, nactive: nat)
    requires forall id :: Some(id) in entries ==> id in slots && slots[id].counter == None
    requires Distinct(Drained(entries))
    ensures bound == BindAll(slots, Drained(entries), current)
    ensures nactive == |Drained(entries)|
  {
    bound, nactive := slots, 0;
    for r := 0 to |entries|
      invariant bound == BindAll(slots, Drained(entries[..r]), current)
      invariant nactive == |Drained(entries[..r])|
    {
      DrainedStep(entries, r);
      if entries[r].Some? {
        var id := entries[r].value;
        ghost var done := Drained(entries[..r]);
        // the source asserts the request is still unbound
        assert bound[id].counter == None by {
          DrainedDistinctAt(entries, r);
          BindAllEffect(slots, done, current);
          DrainedMembers(entries);
        }
        BindAllSnoc(slots, done, id, current);
        bound := Bind(bound, id, current);
        nactive := nactive + 1;
      }
    }
    assert entries[..|entries|] == entries;
  }

  /**
   * The loop of the scan phase over the pending list `ps`: a request whose
   * event `query` reports ready releases its counter once and its slot and
   * leaves the list; the others stay, in order.
   */
  method ScanList(ps: seq<ReqId>, slots: map<ReqId, Request>, counters: map<CounterId, int>,
                  query: ReqId -> HipError)
    returns (kept: seq<ReqId>, live: map<ReqId, Request>, table: map<CounterId, int>)
    requires Distinct(ps)
    requires forall id :: id in ps ==> id in slots && slots[id].counter.Some?
    // any other query result is a fatal abort (ErrorHandler::fail)
    requires forall id :: id in ps ==> query(id) == HipSuccess || query(id) == HipErrorNotReady
    ensures kept == Keep(ps, query)
    ensures live == slots - Elems(Retired(ps, query))
    ensures table == Released(counters, Retired(ps, query), slots)
    ensures forall c :: CounterValue(table, c) ==
              CounterValue(counters, c) - BoundTo(Retired(ps, query), slots, c)
  {
    kept, live, table := ps, slots, counters;
    var i := 0;
    ghost var j := 0;
    ScanStart(ps, query, slots, counters);
    while i < |kept|
      invariant Scanned(ps, query, slots, counters, j, i, kept, live, table)
      decreases |ps| - j
    {
      ScanNext(ps, query, slots, counters, j, i, kept, live, table);
      var id := kept[i];
      // only a live request is queried, and it is freed at most once
      assert id in live;
      var status := query(id);
      if status == HipSuccess {
        ScanRetireOne(ps, query, slots, counters, j, i, kept, live, table);
        var c := live[id].counter.value;
        table := Adjusted(table, c, -1);
        // hipEventDestroy, then Allocator<Request>::free
        live := live - {id};
        kept := kept[..i] + kept[i + 1..];
      } else if status == HipErrorNotReady {
        ScanKeepOne(ps, query, slots, counters, j, i, kept, live, table);
        i := i + 1;
      } else {
        assert false;
      }
      j := j + 1;
    }
    ScanDone(ps, query, slots, counters, j, i, kept, live, table);
    forall c ensures CounterValue(table, c) ==
                     CounterValue(counters, c) - BoundTo(Retired(ps, query), slots, c) {
      ReleasedValue(counters, Retired(ps, query), slots, c);
    }
  }

  class RequestManager {
    /** Requests currently allocated by `Allocator<Request>`, by slot. */
    var slots: map<ReqId, Request>
    /** The slot the allocator hands out next. */
    var nextSlot: ReqId
    /** `_addQueue`: requests pushed by producers and not yet consumed, nulls included. */
    var addQueue: seq<Option<ReqId>>
    /** `_pendingRequests`: requests drained by the poller whose events have not completed. */
    var pending: seq<ReqId>
    /** Net amount the engine has added to each task event counter. */
    var counters: map<CounterId, int>

    /** The fields as one value. */
    function State(): Engine
      reads this
    {
      Engine(slots, nextSlot, addQueue, pending, counters)
    }

    /** Every request the engine tracks, oldest first: the pending list, then the non-null queue entries. */
    function Tracked(): seq<ReqId>
      reads this
    {
      State().Tracked()
    }

    /** The engine's invariant holds of the fields. */
    ghost predicate Valid()
      reads this
    {
      Invariant(State())
    }

    /** The static state at library initialisation: nothing allocated, queued or pending. */
    constructor ()
      ensures Valid()
      ensures slots == map[] && addQueue == [] && pending == [] && counters == map[]
    {
      slots, nextSlot := map[], 0;
      addQueue, pending := [], [];
      counters := map[];
      InitialInvariant();
    }

    /** `addRequest`: push one request onto the ingress queue. */
    method AddRequest(id: ReqId)
      requires |addQueue| < AddQueueCapacity
      modifies this
      ensures addQueue == old(addQueue) + [Some(id)]
      ensures slots == old(slots) && nextSlot == old(nextSlot)
      ensures pending == old(pending) && counters == old(counters)
    {
      addQueue := addQueue + [Some(id)];
    }

    /**
     * `spsc_queue::push(t, size)`: push as many entries of `xs` as there is
     * room for and return how many were pushed.
     */
    method PushSome(xs: seq<Option<ReqId>>) returns (pushed: nat)
      requires |addQueue| <= AddQueueCapacity
      modifies this
      ensures pushed <= |xs|
      ensures pushed == |xs| || |addQueue| == AddQueueCapacity
      ensures addQueue == old(addQueue) + xs[..pushed]
      ensures slots == old(slots) && nextSlot == old(nextSlot)
      ensures pending == old(pending) && counters == old(counters)
    {
      var room := AddQueueCapacity - |addQueue|;
      pushed := if |xs| <= room then |xs| else room;
      addQueue := addQueue + xs[..pushed];
    }

    /** `addRequests`: push all entries, nulls included, in array order. */
    method AddRequests(entries: seq<Option<ReqId>>)
      requires |addQueue| + |entries| <= AddQueueCapacity
      modifies this
      ensures addQueue == old(addQueue) + entries
      ensures slots == old(slots) && nextSlot == old(nextSlot)
      ensures pending == old(pending) && counters == old(counters)
    {
      var added := 0;
      while added < |entries|
        invariant added <= |entries|
        invariant addQueue == old(addQueue) + entries[..added]
        invariant slots == old(slots) && nextSlot == old(nextSlot)
        invariant pending == old(pending) && counters == old(counters)
        decreases |entries| - added
      {
        var pushed := PushSome(entries[added..]);
        assert entries[..added] + entries[added..][..pushed] == entries[..added + pushed];
        added := added + pushed;
      }
      assert entries[..added] == entries;
    }

    /**
     * `generateRequest(stream, bind)`: allocate a request, record its event on
     * `stream` and, when `bind`, bind it to the calling task's counter `current`,
     * raise that counter by one and submit it.
     */
    method GenerateRequest(stream: StreamId, bind: bool, current: CounterId) returns (id: ReqId)
      requires Valid()
      requires bind ==> |addQueue| < AddQueueCapacity
      modifies this
      ensures Valid()
      ensures id == old(nextSlot) && id !in old(slots) && nextSlot == old(nextSlot) + 1
      ensures slots == old(slots)[id := Request(Recorded(stream), if bind then Some(current) else None)]
      ensures bind ==> counters == Adjusted(old(counters), current, 1) && addQueue == old(addQueue) + [Some(id)]
      ensures !bind ==> counters == old(counters) && addQueue == old(addQueue)
      ensures pending == old(pending)
    {
      // Allocator<Request>::allocate() hands out an unbound request
      id := nextSlot;
      var request := NewRequest();
      // hipEventCreate, then hipEventRecord on the stream
      request := request.(event := Recorded(stream));
      slots := slots[id := request];
      nextSlot := nextSlot + 1;
      ghost var afterAlloc := State();
      assert Invariant(afterAlloc) by {
        AllocKeepsInvariant(old(State()), request);
      }

      if bind {
        BindStored(old(slots), id, request, current);
        slots := Bind(slots, id, current);
        counters := Adjusted(counters, current, 1);
        AddRequest(id);
        assert Valid() by {
          SubmitOneKeepsInvariant(afterAlloc, id, current);
        }
      }
    }

    /**
     * `processRequest`: bind a request generated unbound to the calling
     * task's counter `current`, raise that counter by one and submit it.
     */
    method ProcessRequest(id: ReqId, current: CounterId)
      requires Valid()
      requires id in slots && slots[id].counter == None
      requires |addQueue| < AddQueueCapacity
      modifies this
      ensures Valid()
      ensures slots == Bind(old(slots), id, current)
      ensures counters == Adjusted(old(counters), current, 1)
      ensures addQueue == old(addQueue) + [Some(id)]
      ensures pending == old(pending) && nextSlot == old(nextSlot)
    {
      slots := Bind(slots, id, current);
      counters := Adjusted(counters, current, 1);
      AddRequest(id);
      assert Valid() by {
        SubmitOneKeepsInvariant(old(State()), id, current);
      }
    }

    /**
     * `processRequests`: bind every non-null entry to the calling task's
     * counter `current`, raise that counter by the number of non-null
     * entries and submit all entries, nulls included, in array order.
     */
    method ProcessRequests(entries: seq<Option<ReqId>>, current: CounterId)
      requires Valid()
      requires |entries| > 0
      requires forall id :: Some(id) in entries ==> id in slots && slots[id].counter == None
      requires Distinct(Drained(entries))
      requires |addQueue| + |entries| <= AddQueueCapacity
      modifies this
      ensures Valid()
      ensures slots == BindAll(old(slots), Drained(entries), current)
      ensures counters == Adjusted(old(counters), current, |Drained(entries)|)
      ensures addQueue == old(addQueue) + entries
      ensures pending == old(pending) && nextSlot == old(nextSlot)
    {
      var nactive;
      slots, nactive := BindEntries(slots, entries, current);
      counters := Adjusted(counters, current, nactive);
      AddRequests(entries);
      assert Valid() by {
        SubmitKeepsInvariant(old(State()), entries, current);
      }
    }

    /**
     * `checkRequests`: drain the ingress queue into the pending list, then
     * query every pending request's event (`query` plays `hipEventQuery`) and
     * retire the ready ones.
     */
    method CheckRequests(query: ReqId -> HipError)
      requires Valid()
      // any other query result is a fatal abort (ErrorHandler::fail)
      requires forall id :: id in Tracked() ==> query(id) == HipSuccess || query(id) == HipErrorNotReady
      modifies this
      ensures Valid()
      ensures addQueue == []
      ensures pending == Keep(old(Tracked()), query)
      ensures slots == old(slots) - Elems(Retired(old(Tracked()), query))
      ensures forall c :: CounterValue(counters, c) ==
                CounterValue(old(counters), c) - BoundTo(Retired(old(Tracked()), query), old(slots), c)
      ensures nextSlot == old(nextSlot)
    {
      DrainAddQueue();
      ghost var drained := State();
      assert Tracked() == pending;
      pending, slots, counters := ScanList(pending, slots, counters, query);
      assert Valid() by {
        ScanKeepsInvariant(drained, query, counters);
      }
    }

    /** Drain phase of `checkRequests`: `consume_all` appends every non-null entry to the pending list. */
    method DrainAddQueue()
      requires Valid()
      modifies this
      ensures Valid()
      ensures addQueue == []
      ensures pending == old(pending) + Drained(old(addQueue))
      ensures slots == old(slots) && counters == old(counters) && nextSlot == old(nextSlot)
    {
      ghost var q0 := addQueue;
      var k := 0;
      while k < |addQueue|
        invariant 0 <= k <= |q0| && addQueue == q0
        invariant pending == old(pending) + Drained(q0[..k])
        invariant slots == old(slots) && counters == old(counters) && nextSlot == old(nextSlot)
      {
        assert q0[..k + 1] == q0[..k] + [q0[k]];
        DrainedAppend(q0[..k], [q0[k]]);
        if addQueue[k].Some? {
          pending := pending + [addQueue[k].value];
        }
        k := k + 1;
      }
      assert q0[..k] == q0;
      addQueue := [];
      assert Valid() by {
        DrainKeepsInvariant(old(State()));
      }
    }

    /** A task's counter is back at its baseline exactly when none of its requests is still tracked. */
    lemma CounterAtBaseline(c: CounterId)
      requires Valid()
      ensures CounterValue(counters, c) == 0 <==> forall id :: id in Tracked() ==> CounterOf(slots, id) != Some(c)
    {
      EngineModel.CounterAtBaseline(State(), c);
    }
  }
}
