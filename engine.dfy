/**
 * The request engine's whole state as one value, its invariant, and one lemma
 * per operation of src/common/RequestManager.hpp showing that the state the
 * operation produces satisfies the invariant again.
 */
module EngineModel {
  import opened TahipTypes
  import opened RequestModel

  /**
   * A snapshot of the engine: the allocator's live slots and next slot, the
   * ingress queue, the pending list and the engine's net change to each counter.
   */
  datatype Engine = Engine(
    slots: map<ReqId, Request>,
    nextSlot: ReqId,
    addQueue: seq<Option<ReqId>>,
    pending: seq<ReqId>,
    counters: map<CounterId, int>)
  {
    /** Every request the engine tracks, oldest first: the pending list, then the non-null queue entries. */
    function Tracked(): seq<ReqId>
    {
      pending + Drained(addQueue)
    }
  }

  /** The engine's invariant. */
  ghost predicate Invariant(e: Engine)
  {
    && |e.addQueue| <= AddQueueCapacity
    && (forall id :: id in e.slots ==> id < e.nextSlot)
    // every live request has its event created and recorded
    && (forall id :: id in e.slots ==> e.slots[id].event.Recorded?)
    // tracked requests are live and bound: a freed request is never tracked, hence never queried
    && (forall id :: id in e.Tracked() ==> id in e.slots && e.slots[id].counter.Some?)
    // a bound request is never lost: it stays queued or pending until it retires
    && (forall id :: id in e.slots && e.slots[id].counter.Some? ==> id in e.Tracked())
    // no request is queued or pending twice
    && Distinct(e.Tracked())
    // per counter, increments minus decrements equal the bound requests still tracked
    && Conserved(e.Tracked(), e.slots, e.counters)
  }

  /** The invariant, stated over a given tracked list. */
  lemma InvariantIntro(e: Engine, tracked: seq<ReqId>)
    requires tracked == e.Tracked()
    requires |e.addQueue| <= AddQueueCapacity
    requires forall id :: id in e.slots ==> id < e.nextSlot && e.slots[id].event.Recorded?
    requires forall id :: id in tracked ==> id in e.slots && e.slots[id].counter.Some?
    requires forall id :: id in e.slots && e.slots[id].counter.Some? ==> id in tracked
    requires Distinct(tracked) && Conserved(tracked, e.slots, e.counters)
    ensures Invariant(e)
  {
  }

  /** The state at library initialisation satisfies the invariant. */
  lemma InitialInvariant()
    ensures Invariant(Engine(map[], 0, [], [], map[]))
  {
    var e := Engine(map[], 0, [], [], map[]);
    assert e.Tracked() == [];
  }

  /** Allocating a request whose event is recorded, without binding it, keeps the invariant. */
  lemma AllocKeepsInvariant(e: Engine, request: Request)
    requires Invariant(e)
    requires request.event.Recorded? && request.counter == None
    ensures Invariant(e.(slots := e.slots[e.nextSlot := request], nextSlot := e.nextSlot + 1))
  {
    var e' := e.(slots := e.slots[e.nextSlot := request], nextSlot := e.nextSlot + 1);
    var tracked := e.Tracked();
    assert e'.Tracked() == tracked;
    forall t | t in tracked ensures CounterOf(e.slots, t) == CounterOf(e'.slots, t) {
      assert t != e.nextSlot;
    }
    forall c ensures CounterValue(e'.counters, c) == BoundTo(tracked, e'.slots, c) {
      BoundToFrame(tracked, e.slots, e'.slots, c);
    }
  }

  /**
   * Submitting: binding the non-null `entries` (live, unbound, pairwise
   * distinct) to `c`, raising `c` by their number and pushing all entries,
   * nulls included, keeps the invariant.
   */
  lemma SubmitKeepsInvariant(e: Engine, entries: seq<Option<ReqId>>, c: CounterId)
    requires Invariant(e)
    requires forall id :: Some(id) in entries ==> id in e.slots && e.slots[id].counter == None
    requires Distinct(Drained(entries))
    requires |e.addQueue| + |entries| <= AddQueueCapacity
    ensures Invariant(e.(slots := BindAll(e.slots, Drained(entries), c),
                         addQueue := e.addQueue + entries,
                         counters := Adjusted(e.counters, c, |Drained(entries)|)))
  {
    var ids, tracked := Drained(entries), e.Tracked();
    var e' := e.(slots := BindAll(e.slots, ids, c),
                 addQueue := e.addQueue + entries,
                 counters := Adjusted(e.counters, c, |ids|));
    assert forall id :: id in ids ==> id in e.slots && id !in tracked by {
      DrainedMembers(entries);
      forall id | id in ids ensures id in e.slots && id !in tracked {
        assert Some(id) in entries;
      }
    }
    TrackedAfterPush(e, e', entries);
    BindKeepsTracking(tracked, e.slots, ids, c);
    DistinctAppend(tracked, ids);
    ConservedAfterBind(tracked, e.slots, e.counters, ids, c);
    InvariantIntro(e', tracked + ids);
  }

  /** Submitting one live, unbound request: bind it to `c`, raise `c` by one and push it. */
  lemma SubmitOneKeepsInvariant(e: Engine, id: ReqId, c: CounterId)
    requires Invariant(e)
    requires id in e.slots && e.slots[id].counter == None
    requires |e.addQueue| < AddQueueCapacity
    ensures Invariant(e.(slots := Bind(e.slots, id, c),
                         addQueue := e.addQueue + [Some(id)],
                         counters := Adjusted(e.counters, c, 1)))
  {
    SubmitKeepsInvariant(e, [Some(id)], c);
    assert Drained([Some(id)]) == [id];
    assert BindAll(e.slots, [id], c) == Bind(e.slots, id, c);
  }

  /** Pushing entries onto the ingress queue tracks exactly their non-null requests, after the others. */
  lemma TrackedAfterPush(e: Engine, e': Engine, entries: seq<Option<ReqId>>)
    requires e'.pending == e.pending && e'.addQueue == e.addQueue + entries
    ensures e'.Tracked() == e.Tracked() + Drained(entries)
  {
    DrainedAppend(e.addQueue, entries);
    var p, q, t := e.pending, Drained(e.addQueue), Drained(entries);
    assert p + (q + t) == (p + q) + t;
  }

  /** The drain phase keeps the invariant: it moves requests without changing what is tracked. */
  lemma DrainKeepsInvariant(e: Engine)
    requires Invariant(e)
    ensures Invariant(e.(addQueue := [], pending := e.pending + Drained(e.addQueue)))
  {
    var e' := e.(addQueue := [], pending := e.pending + Drained(e.addQueue));
    assert e'.Tracked() == e.Tracked();
  }

  /**
   * The scan phase keeps the invariant: it frees the ready pending requests,
   * keeps the others in order, and lowers each counter by its retired requests.
   */
  lemma ScanKeepsInvariant(e: Engine, query: ReqId -> HipError, counters': map<CounterId, int>)
    requires Invariant(e) && e.addQueue == []
    requires forall c :: CounterValue(counters', c) ==
               CounterValue(e.counters, c) - BoundTo(Retired(e.pending, query), e.slots, c)
    ensures Invariant(e.(slots := e.slots - Elems(Retired(e.pending, query)),
                         pending := Keep(e.pending, query),
                         counters := counters'))
  {
    var e' := e.(slots := e.slots - Elems(Retired(e.pending, query)),
                 pending := Keep(e.pending, query),
                 counters := counters');
    var ps, kept, retired := e.pending, Keep(e.pending, query), Retired(e.pending, query);
    assert e.Tracked() == ps;
    assert e'.Tracked() == kept;
    assert Conserved(kept, e'.slots, counters') by {
      ConservedAfterScan(ps, e.slots, e.counters, query, counters');
    }
    assert Distinct(kept) by {
      DistinctKeep(ps, query);
    }
    assert forall id :: id in kept ==> id in ps && id !in retired by {
      KeepMembers(ps, query);
      RetiredMembers(ps, query);
    }
    assert forall id :: id in e'.slots ==> id in ps || id !in e.slots || e.slots[id].counter.None?;
    assert forall id :: id in ps && id !in retired ==> id in kept by {
      KeepMembers(ps, query);
      RetiredMembers(ps, query);
    }
  }

  /** A task's counter is back at its baseline exactly when none of its requests is still tracked. */
  lemma CounterAtBaseline(e: Engine, c: CounterId)
    requires Invariant(e)
    ensures CounterValue(e.counters, c) == 0 <==> forall id :: id in e.Tracked() ==> CounterOf(e.slots, id) != Some(c)
  {
    BoundToZeroIff(e.Tracked(), e.slots, c);
  }
}
