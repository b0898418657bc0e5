/**
 * Value-level model of the TAHIP request engine (src/common/RequestManager.hpp):
 * the `Request` record, the specification functions that describe the ingress
 * queue, the pending list and the counter table, and the lemmas about them that
 * the imperative `RequestManager` relies on.
 */
module RequestModel {
  import opened TahipTypes

  /** The HIP event of a request: not yet created, or created and recorded on a stream. */
  datatype Event = Unset | Recorded(stream: StreamId)

  /** A TAHIP request: its event and the event counter of the task it is bound to (`None` = unbound). */
  datatype Request = Request(event: Event, counter: Option<CounterId>)

  /** `Request()`: a freshly constructed request is unbound and has no event yet. */
  function NewRequest(): (r: Request)
    ensures r.counter == None
    ensures !r.event.Recorded?
  {
    Request(Unset, None)
  }

  /** The counter a slot is bound to; a slot that is not live is bound to nothing. */
  function CounterOf(slots: map<ReqId, Request>, id: ReqId): Option<CounterId>
  {
    if id in slots then slots[id].counter else None
  }

  /** `request->_eventCounter = counter` on a live slot. */
  function Bind(slots: map<ReqId, Request>, id: ReqId, c: CounterId): (r: map<ReqId, Request>)
    ensures r.Keys == slots.Keys
  {
    if id in slots then slots[id := slots[id].(counter := Some(c))] else slots
  }

  /** Binding a slot just stored stores the bound request instead. */
  lemma BindStored(slots: map<ReqId, Request>, id: ReqId, r: Request, c: CounterId)
    ensures Bind(slots[id := r], id, c) == slots[id := r.(counter := Some(c))]
  {
  }

  /** Binds every slot of `ids`, in order, to `c`. */
  function BindAll(slots: map<ReqId, Request>, ids: seq<ReqId>, c: CounterId): (r: map<ReqId, Request>)
    ensures r.Keys == slots.Keys
  {
    if ids == [] then slots
    else Bind(BindAll(slots, ids[..|ids| - 1], c), ids[|ids| - 1], c)
  }

  /** The engine's net contribution to counter `c` (absent means nothing outstanding). */
  function CounterValue(counters: map<CounterId, int>, c: CounterId): int
  {
    if c in counters then counters[c] else 0
  }

  /** Increase (`delta > 0`) or decrease (`delta < 0`) counter `c` by `|delta|`. */
  function Adjusted(counters: map<CounterId, int>, c: CounterId, delta: int): (r: map<CounterId, int>)
    ensures CounterValue(r, c) == CounterValue(counters, c) + delta
    ensures forall d :: d != c ==> CounterValue(r, d) == CounterValue(counters, d)
  {
    counters[c := CounterValue(counters, c) + delta]
  }

  /** The requests `consume_all` moves out of the ingress queue, in FIFO order: nulls are dropped. */
  function Drained(q: seq<Option<ReqId>>): (r: seq<ReqId>)
    ensures |r| <= |q|
  {
    if q == [] then []
    else
      match q[|q| - 1]
      case None => Drained(q[..|q| - 1])
      case Some(id) => Drained(q[..|q| - 1]) + [id]
  }

  /** Number of requests of `s` bound to counter `c`. */
  function BoundTo(s: seq<ReqId>, slots: map<ReqId, Request>, c: CounterId): (n: nat)
    ensures n <= |s|
  {
    if s == [] then 0
    else BoundTo(s[..|s| - 1], slots, c) + (if CounterOf(slots, s[|s| - 1]) == Some(c) then 1 else 0)
  }

  /** The counter table once every request of `s` has released the counter it is bound to in `slots`. */
  function Released(counters: map<CounterId, int>, s: seq<ReqId>, slots: map<ReqId, Request>): map<CounterId, int>
  {
    if s == [] then counters
    else
      var before := Released(counters, s[..|s| - 1], slots);
      match CounterOf(slots, s[|s| - 1])
      case None => before
      case Some(c) => Adjusted(before, c, -1)
  }

  /** Whether `hipEventQuery` reports the request's event as complete. */
  predicate IsReady(query: ReqId -> HipError, id: ReqId)
  {
    query(id) == HipSuccess
  }

  /** The requests the scan leaves in the pending list: the not-ready ones, in their original order. */
  function Keep(s: seq<ReqId>, query: ReqId -> HipError): (r: seq<ReqId>)
    ensures |r| <= |s|
  {
    if s == [] then []
    else if IsReady(query, s[|s| - 1]) then Keep(s[..|s| - 1], query)
      else Keep(s[..|s| - 1], query) + [s[|s| - 1]]
  }

  /** The requests the scan retires: the ready ones, in the order they are visited. */
  function Retired(s: seq<ReqId>, query: ReqId -> HipError): (r: seq<ReqId>)
    ensures |r| <= |s|
  {
    if s == [] then []
    else if IsReady(query, s[|s| - 1]) then Retired(s[..|s| - 1], query) + [s[|s| - 1]]
      else Retired(s[..|s| - 1], query)
  }

  /** No request occurs twice. */
  predicate Distinct(s: seq<ReqId>)
  {
    forall id | id in s :: multiset(s)[id] <= 1
  }

  /** The set of requests occurring in `s`. */
  function Elems(s: seq<ReqId>): set<ReqId>
  {
    set id | id in s
  }

  /**
   * Conservation: for every counter, increments minus decrements made by the
   * engine equal the number of tracked requests still bound to it.
   */
  ghost predicate Conserved(tracked: seq<ReqId>, slots: map<ReqId, Request>, counters: map<CounterId, int>)
  {
    forall c :: CounterValue(counters, c) == BoundTo(tracked, slots, c)
  }

  // ---------------------------------------------------------------------------
  // Lemmas about the specification functions

  /** Binding a list of slots binds exactly those slots to `c`; events and other bindings are untouched. */
  lemma {:induction false} BindAllEffect(slots: map<ReqId, Request>, ids: seq<ReqId>, c: CounterId)
    ensures forall id :: id in slots ==>
      BindAll(slots, ids, c)[id].event == slots[id].event &&
      BindAll(slots, ids, c)[id].counter == (if id in ids then Some(c) else slots[id].counter)
  {
    if ids != [] {
      var ids' := ids[..|ids| - 1];
      assert ids == ids' + [ids[|ids| - 1]];
      BindAllEffect(slots, ids', c);
    }
  }

  /** The drain keeps exactly the non-null entries: nulls are pushed but never drained. */
  lemma {:induction false} DrainedMembers(q: seq<Option<ReqId>>)
    ensures forall id :: id in Drained(q) <==> Some(id) in q
  {
    if q != [] {
      var q' := q[..|q| - 1];
      assert q == q' + [q[|q| - 1]];
      DrainedMembers(q');
    }
  }

  /** The scan keeps exactly the pending requests whose event is not ready. */
  lemma {:induction false} KeepMembers(s: seq<ReqId>, query: ReqId -> HipError)
    ensures forall id :: id in Keep(s, query) <==> id in s && !IsReady(query, id)
  {
    if s != [] {
      var s' := s[..|s| - 1];
      assert s == s' + [s[|s| - 1]];
      KeepMembers(s', query);
    }
  }

  /** The scan retires exactly the pending requests whose event is ready. */
  lemma {:induction false} RetiredMembers(s: seq<ReqId>, query: ReqId -> HipError)
    ensures forall id :: id in Retired(s, query) <==> id in s && IsReady(query, id)
  {
    if s != [] {
      var s' := s[..|s| - 1];
      assert s == s' + [s[|s| - 1]];
      RetiredMembers(s', query);
    }
  }

  /** Draining two queue segments one after the other drains their concatenation. */
  lemma {:induction false} DrainedAppend(q1: seq<Option<ReqId>>, q2: seq<Option<ReqId>>)
    ensures Drained(q1 + q2) == Drained(q1) + Drained(q2)
    decreases |q2|
  {
    if q2 != [] {
      var q2' := q2[..|q2| - 1];
      assert (q1 + q2)[..|q1 + q2| - 1] == q1 + q2';
      assert (q1 + q2)[|q1 + q2| - 1] == q2[|q2| - 1];
      DrainedAppend(q1, q2');
      match q2[|q2| - 1]
      case None =>
        assert Drained(q2) == Drained(q2');
        assert Drained(q1 + q2) == Drained(q1 + q2');
      case Some(id) =>
        assert Drained(q2) == Drained(q2') + [id];
        assert Drained(q1 + q2) == Drained(q1 + q2') + [id];
    } else {
      assert q1 + q2 == q1;
    }
  }

  /** Binding one more request after those of `ids`. */
  lemma BindAllSnoc(slots: map<ReqId, Request>, ids: seq<ReqId>, id: ReqId, c: CounterId)
    ensures BindAll(slots, ids + [id], c) == Bind(BindAll(slots, ids, c), id, c)
  {
    assert (ids + [id])[..|ids|] == ids;
  }

  /** Draining one more queue entry appends its request, if it is not null. */
  lemma DrainedStep(q: seq<Option<ReqId>>, k: nat)
    requires k < |q|
    ensures q[k].Some? ==> Drained(q[..k + 1]) == Drained(q[..k]) + [q[k].value]
    ensures q[k].None? ==> Drained(q[..k + 1]) == Drained(q[..k])
  {
    assert q[..k + 1][..k] == q[..k];
  }

  /** The drain of a queue splits around a non-null entry. */
  lemma DrainedSplitAt(q: seq<Option<ReqId>>, k: nat)
    requires k < |q| && q[k].Some?
    ensures Drained(q) == (Drained(q[..k]) + [q[k].value]) + Drained(q[k + 1..])
  {
    DrainedStep(q, k);
    assert q == q[..k + 1] + q[k + 1..];
    DrainedAppend(q[..k + 1], q[k + 1..]);
  }

  /** When the non-null entries are distinct, an entry's request does not occur earlier in the queue. */
  lemma DrainedDistinctAt(q: seq<Option<ReqId>>, k: nat)
    requires Distinct(Drained(q)) && k < |q| && q[k].Some?
    ensures q[k].value !in Drained(q[..k])
  {
    DrainedSplitAt(q, k);
    DistinctBefore(Drained(q[..k]), q[k].value, Drained(q[k + 1..]));
  }

  /** Counting bound requests is additive over concatenation. */
  lemma {:induction false} BoundToAppend(s: seq<ReqId>, t: seq<ReqId>, slots: map<ReqId, Request>, c: CounterId)
    ensures BoundTo(s + t, slots, c) == BoundTo(s, slots, c) + BoundTo(t, slots, c)
    decreases |t|
  {
    if t != [] {
      var t' := t[..|t| - 1];
      assert (s + t)[..|s + t| - 1] == s + t';
      assert (s + t)[|s + t| - 1] == t[|t| - 1];
      BoundToAppend(s, t', slots, c);
      assert BoundTo(t, slots, c) == BoundTo(t', slots, c) + (if CounterOf(slots, t[|t| - 1]) == Some(c) then 1 else 0);
      assert BoundTo(s + t, slots, c) == BoundTo(s + t', slots, c) + (if CounterOf(slots, t[|t| - 1]) == Some(c) then 1 else 0);
    } else {
      assert s + t == s;
    }
  }

  /** The count only depends on the bindings of the requests counted. */
  lemma {:induction false} BoundToFrame(s: seq<ReqId>, m1: map<ReqId, Request>, m2: map<ReqId, Request>, c: CounterId)
    requires forall id :: id in s ==> CounterOf(m1, id) == CounterOf(m2, id)
    ensures BoundTo(s, m1, c) == BoundTo(s, m2, c)
  {
    if s != [] {
      assert s[|s| - 1] in s;
      forall id | id in s[..|s| - 1] ensures CounterOf(m1, id) == CounterOf(m2, id) {
        assert id in s;
      }
      BoundToFrame(s[..|s| - 1], m1, m2, c);
    }
  }

  /** When every request of `s` is bound to `c0`, they all count for `c0` and none for another counter. */
  lemma {:induction false} BoundToUniform(s: seq<ReqId>, slots: map<ReqId, Request>, c0: CounterId, c: CounterId)
    requires forall id :: id in s ==> CounterOf(slots, id) == Some(c0)
    ensures BoundTo(s, slots, c) == if c == c0 then |s| else 0
  {
    if s != [] {
      assert s[|s| - 1] in s;
      forall id | id in s[..|s| - 1] ensures CounterOf(slots, id) == Some(c0) {
        assert id in s;
      }
      BoundToUniform(s[..|s| - 1], slots, c0, c);
    }
  }

  /** A counter has nothing outstanding exactly when no request of `s` is bound to it. */
  lemma {:induction false} BoundToZeroIff(s: seq<ReqId>, slots: map<ReqId, Request>, c: CounterId)
    ensures BoundTo(s, slots, c) == 0 <==> forall id :: id in s ==> CounterOf(slots, id) != Some(c)
  {
    if s != [] {
      var s' := s[..|s| - 1];
      assert s == s' + [s[|s| - 1]];
      BoundToZeroIff(s', slots, c);
    }
  }

  /** The scan splits the pending list: what it keeps and what it retires together are exactly the list. */
  lemma {:induction false} KeepRetiredPartition(s: seq<ReqId>, query: ReqId -> HipError)
    ensures multiset(Keep(s, query)) + multiset(Retired(s, query)) == multiset(s)
  {
    if s != [] {
      var s' := s[..|s| - 1];
      assert s == s' + [s[|s| - 1]];
      KeepRetiredPartition(s', query);
    }
  }

  /** Every request bound to `c` is either kept or retired by the scan, never both. */
  lemma {:induction false} BoundToPartition(s: seq<ReqId>, slots: map<ReqId, Request>, c: CounterId, query: ReqId -> HipError)
    ensures BoundTo(s, slots, c) == BoundTo(Keep(s, query), slots, c) + BoundTo(Retired(s, query), slots, c)
  {
    if s != [] {
      var s', x := s[..|s| - 1], s[|s| - 1];
      BoundToPartition(s', slots, c, query);
      if IsReady(query, x) {
        assert (Retired(s', query) + [x])[..|Retired(s', query)|] == Retired(s', query);
      } else {
        assert (Keep(s', query) + [x])[..|Keep(s', query)|] == Keep(s', query);
      }
    }
  }

  /** Releasing the requests of `s` lowers each counter by the number of them bound to it. */
  lemma {:induction false} ReleasedValue(counters: map<CounterId, int>, s: seq<ReqId>, slots: map<ReqId, Request>, c: CounterId)
    ensures CounterValue(Released(counters, s, slots), c) == CounterValue(counters, c) - BoundTo(s, slots, c)
  {
    if s != [] {
      ReleasedValue(counters, s[..|s| - 1], slots, c);
    }
  }

  /** How examining the request at position `j` of `ps` extends the kept and retired prefixes. */
  lemma ScanStep(ps: seq<ReqId>, j: nat, query: ReqId -> HipError)
    requires j < |ps|
    ensures ps[..j + 1][..j] == ps[..j] && ps[..j + 1][j] == ps[j]
    ensures IsReady(query, ps[j]) ==>
              Keep(ps[..j + 1], query) == Keep(ps[..j], query) &&
              Retired(ps[..j + 1], query) == Retired(ps[..j], query) + [ps[j]]
    ensures !IsReady(query, ps[j]) ==>
              Keep(ps[..j + 1], query) == Keep(ps[..j], query) + [ps[j]] &&
              Retired(ps[..j + 1], query) == Retired(ps[..j], query)
  {
  }

  /** Releasing one more request bound to `c` lowers `c` once more. */
  lemma ReleasedSnoc(counters: map<CounterId, int>, s: seq<ReqId>, slots: map<ReqId, Request>, id: ReqId, c: CounterId)
    requires CounterOf(slots, id) == Some(c)
    ensures Released(counters, s + [id], slots) == Adjusted(Released(counters, s, slots), c, -1)
  {
    assert (s + [id])[..|s|] == s;
  }

  /**
   * The scan of the pending list `ps` has examined its first `j` requests:
   * `list` holds the kept ones followed by the unexamined ones, `i` indexes the
   * first unexamined one, and the retired ones have released their slots and counters.
   */
  ghost predicate Scanned(ps: seq<ReqId>, query: ReqId -> HipError, slots: map<ReqId, Request>,
                          counters: map<CounterId, int>, j: nat, i: nat, list: seq<ReqId>,
                          live: map<ReqId, Request>, table: map<CounterId, int>)
  {
    j <= |ps| &&
    list == Keep(ps[..j], query) + ps[j..] && i == |Keep(ps[..j], query)| &&
    live == slots - Elems(Retired(ps[..j], query)) &&
    table == Released(counters, Retired(ps[..j], query), slots)
  }

  /** Before any request is examined. */
  lemma ScanStart(ps: seq<ReqId>, query: ReqId -> HipError, slots: map<ReqId, Request>, counters: map<CounterId, int>)
    ensures Scanned(ps, query, slots, counters, 0, 0, ps, slots, counters)
  {
    assert ps[..0] == [] && ps[0..] == ps;
    assert Elems([]) == {};
    assert slots - {} == slots;
  }

  /** While unexamined requests remain, the one at `i` is the next of `ps`, and it is still allocated. */
  lemma ScanNext(ps: seq<ReqId>, query: ReqId -> HipError, slots: map<ReqId, Request>, counters: map<CounterId, int>,
                 j: nat, i: nat, list: seq<ReqId>, live: map<ReqId, Request>, table: map<CounterId, int>)
    requires Scanned(ps, query, slots, counters, j, i, list, live, table)
    requires Distinct(ps) && forall id :: id in ps ==> id in slots
    requires i < |list|
    ensures j < |ps| && list[i] == ps[j]
    ensures ps[j] in live && live[ps[j]] == slots[ps[j]]
  {
    AfterKept(Keep(ps[..j], query), ps, j);
    DistinctAt(ps, j);
    RetiredMembers(ps[..j], query);
  }

  /** Examining a request that is not ready keeps it in place. */
  lemma ScanKeepOne(ps: seq<ReqId>, query: ReqId -> HipError, slots: map<ReqId, Request>, counters: map<CounterId, int>,
                    j: nat, i: nat, list: seq<ReqId>, live: map<ReqId, Request>, table: map<CounterId, int>)
    requires Scanned(ps, query, slots, counters, j, i, list, live, table)
    requires j < |ps| && !IsReady(query, ps[j])
    ensures Scanned(ps, query, slots, counters, j + 1, i + 1, list, live, table)
  {
    ScanStep(ps, j, query);
    ShiftOne(Keep(ps[..j], query), ps, j);
  }

  /** Examining a ready request erases it, frees its slot and releases its counter once. */
  lemma ScanRetireOne(ps: seq<ReqId>, query: ReqId -> HipError, slots: map<ReqId, Request>, counters: map<CounterId, int>,
                      j: nat, i: nat, list: seq<ReqId>, live: map<ReqId, Request>, table: map<CounterId, int>)
    requires Scanned(ps, query, slots, counters, j, i, list, live, table)
    requires j < |ps| && IsReady(query, ps[j])
    requires ps[j] in slots && slots[ps[j]].counter.Some?
    ensures i < |list|
    ensures Scanned(ps, query, slots, counters, j + 1, i, list[..i] + list[i + 1..], live - {ps[j]},
                    Adjusted(table, slots[ps[j]].counter.value, -1))
  {
    var kept, retired := Keep(ps[..j], query), Retired(ps[..j], query);
    ScanStep(ps, j, query);
    AfterKept(kept, ps, j);
    EraseAt(kept, ps, j);
    FreeOneMore(slots, retired, ps[j]);
    ReleasedSnoc(counters, retired, slots, ps[j], slots[ps[j]].counter.value);
  }

  /** Once every request is examined, the scan's outcome is the kept list and the retired requests' release. */
  lemma ScanDone(ps: seq<ReqId>, query: ReqId -> HipError, slots: map<ReqId, Request>, counters: map<CounterId, int>,
                 j: nat, i: nat, list: seq<ReqId>, live: map<ReqId, Request>, table: map<CounterId, int>)
    requires Scanned(ps, query, slots, counters, j, i, list, live, table)
    requires i >= |list|
    ensures list == Keep(ps, query)
    ensures live == slots - Elems(Retired(ps, query))
    ensures table == Released(counters, Retired(ps, query), slots)
  {
    assert j == |ps|;
    assert ps[..j] == ps && ps[j..] == [];
    assert Keep(ps, query) + [] == Keep(ps, query);
  }

  /** Moving the first unexamined request of `ps` onto the kept prefix leaves the list unchanged. */
  lemma ShiftOne(kept: seq<ReqId>, ps: seq<ReqId>, j: nat)
    requires j < |ps|
    ensures kept + ps[j..] == (kept + [ps[j]]) + ps[j + 1..]
  {
    assert ps[j..] == [ps[j]] + ps[j + 1..];
  }

  /** The request right after the kept prefix is the first unexamined one. */
  lemma AfterKept(kept: seq<ReqId>, ps: seq<ReqId>, j: nat)
    requires j < |ps|
    ensures |kept + ps[j..]| == |kept| + |ps| - j
    ensures (kept + ps[j..])[|kept|] == ps[j]
  {
  }

  /** Erasing the first unexamined request of `ps` after the kept prefix. */
  lemma EraseAt(kept: seq<ReqId>, ps: seq<ReqId>, j: nat)
    requires j < |ps|
    ensures (kept + ps[j..])[..|kept|] + (kept + ps[j..])[|kept| + 1..] == kept + ps[j + 1..]
  {
    assert (kept + ps[j..])[..|kept|] == kept;
    assert (kept + ps[j..])[|kept| + 1..] == ps[j + 1..];
  }

  /** Freeing one more slot after those of `s`. */
  lemma FreeOneMore(slots: map<ReqId, Request>, s: seq<ReqId>, id: ReqId)
    ensures (slots - Elems(s)) - {id} == slots - Elems(s + [id])
  {
    ElemsSnoc(s, id);
  }

  /** Listing one more request adds exactly that request to the listed set. */
  lemma ElemsSnoc(s: seq<ReqId>, id: ReqId)
    ensures Elems(s + [id]) == Elems(s) + {id}
  {
  }

  /** Appending one request keeps a list duplicate-free exactly when it was not there yet. */
  lemma DistinctSnoc(s: seq<ReqId>, x: ReqId)
    ensures Distinct(s + [x]) <==> Distinct(s) && x !in s
  {
    assert multiset(s + [x]) == multiset(s) + multiset{x};
    if Distinct(s + [x]) {
      assert multiset(s + [x])[x] <= 1;
      forall id ensures multiset(s)[id] <= 1 {
        assert multiset(s + [x])[id] <= 1;
      }
    }
  }

  /** Two duplicate-free lists with no request in common concatenate to a duplicate-free list. */
  lemma DistinctAppend(s: seq<ReqId>, t: seq<ReqId>)
    requires Distinct(s) && Distinct(t)
    requires forall id :: id in s ==> id !in t
    ensures Distinct(s + t)
  {
    assert multiset(s + t) == multiset(s) + multiset(t);
    forall id ensures multiset(s + t)[id] <= 1 {
      if id in s { assert id !in t; }
    }
  }

  /** Both parts of a duplicate-free concatenation are duplicate-free and share no request. */
  lemma DistinctConcat(s: seq<ReqId>, t: seq<ReqId>)
    requires Distinct(s + t)
    ensures Distinct(s) && Distinct(t)
    ensures forall id :: id in s ==> id !in t
  {
    assert multiset(s + t) == multiset(s) + multiset(t);
    forall id ensures multiset(s)[id] <= 1 && multiset(t)[id] <= 1 && (id in s ==> id !in t) {
      assert multiset(s + t)[id] <= 1;
    }
  }

  /** In a duplicate-free list, nothing before an occurrence of `id` is `id` again. */
  lemma DistinctBefore(a: seq<ReqId>, id: ReqId, b: seq<ReqId>)
    requires Distinct((a + [id]) + b)
    ensures id !in a
  {
    DistinctConcat(a + [id], b);
    DistinctSnoc(a, id);
  }

  /** In a duplicate-free list, no request occurs before its own position. */
  lemma DistinctAt(s: seq<ReqId>, j: nat)
    requires Distinct(s) && j < |s|
    ensures s[j] !in s[..j]
  {
    assert s == (s[..j] + [s[j]]) + s[j + 1..];
    DistinctBefore(s[..j], s[j], s[j + 1..]);
  }

  /** What the scan keeps of a duplicate-free list is duplicate-free. */
  lemma {:induction false} DistinctKeep(s: seq<ReqId>, query: ReqId -> HipError)
    requires Distinct(s)
    ensures Distinct(Keep(s, query))
  {
    if s != [] {
      var s', x := s[..|s| - 1], s[|s| - 1];
      assert s == s' + [x];
      DistinctSnoc(s', x);
      DistinctKeep(s', query);
      if !IsReady(query, x) {
        KeepMembers(s', query);
        DistinctSnoc(Keep(s', query), x);
      }
    }
  }

  /** When every pending event reports ready, one scan empties the pending list and retires all of it. */
  lemma {:induction false} AllReadyRetiresAll(s: seq<ReqId>, query: ReqId -> HipError)
    requires forall id :: id in s ==> IsReady(query, id)
    ensures Keep(s, query) == []
    ensures Retired(s, query) == s
  {
    if s != [] {
      var s' := s[..|s| - 1];
      assert s == s' + [s[|s| - 1]];
      assert s[|s| - 1] in s;
      AllReadyRetiresAll(s', query);
    }
  }

  /** A scan in which no event is ready keeps the whole list, in order, and retires nothing. */
  lemma {:induction false} NoneReadyKeepsAll(s: seq<ReqId>, query: ReqId -> HipError)
    requires forall id :: id in s ==> !IsReady(query, id)
    ensures Keep(s, query) == s
    ensures Retired(s, query) == []
  {
    if s != [] {
      var s' := s[..|s| - 1];
      assert s == s' + [s[|s| - 1]];
      assert s[|s| - 1] in s;
      NoneReadyKeepsAll(s', query);
    }
  }

  /**
   * Binding requests that are live and untracked, and tracking them from then
   * on, keeps "tracked exactly when bound" and leaves every event alone.
   */
  lemma BindKeepsTracking(tracked: seq<ReqId>, slots: map<ReqId, Request>, ids: seq<ReqId>, c0: CounterId)
    requires forall id :: id in tracked ==> id in slots && slots[id].counter.Some?
    requires forall id :: id in slots && slots[id].counter.Some? ==> id in tracked
    requires forall id :: id in ids ==> id in slots && id !in tracked
    ensures forall id :: id in tracked + ids ==> id in BindAll(slots, ids, c0) && BindAll(slots, ids, c0)[id].counter.Some?
    ensures forall id :: id in BindAll(slots, ids, c0) && BindAll(slots, ids, c0)[id].counter.Some? ==> id in tracked + ids
    ensures forall id :: id in BindAll(slots, ids, c0) ==> BindAll(slots, ids, c0)[id].event == slots[id].event
  {
    BindAllEffect(slots, ids, c0);
  }

  /**
   * Binding: tracking `ids` (live, unbound, not yet tracked, pairwise distinct),
   * binding them all to `c0` and raising `c0` by their number keeps conservation.
   */
  lemma ConservedAfterBind(tracked: seq<ReqId>, slots: map<ReqId, Request>, counters: map<CounterId, int>,
                           ids: seq<ReqId>, c0: CounterId)
    requires Conserved(tracked, slots, counters)
    requires forall id :: id in ids ==> id in slots && id !in tracked
    ensures Conserved(tracked + ids, BindAll(slots, ids, c0), Adjusted(counters, c0, |ids|))
  {
    var slots', counters' := BindAll(slots, ids, c0), Adjusted(counters, c0, |ids|);
    BindAllEffect(slots, ids, c0);
    forall c ensures CounterValue(counters', c) == BoundTo(tracked + ids, slots', c) {
      forall id | id in tracked ensures CounterOf(slots, id) == CounterOf(slots', id) {
        assert id !in ids;
      }
      BoundToFrame(tracked, slots, slots', c);
      BoundToUniform(ids, slots', c0, c);
      BoundToAppend(tracked, ids, slots', c);
    }
  }

  /**
   * Retiring: removing the ready requests of the tracked list from the arena,
   * keeping the others and decrementing each retired request's counter once
   * keeps conservation.
   */
  lemma ConservedAfterScan(tracked: seq<ReqId>, slots: map<ReqId, Request>, counters: map<CounterId, int>,
                           query: ReqId -> HipError, counters': map<CounterId, int>)
    requires Conserved(tracked, slots, counters)
    requires forall c :: CounterValue(counters', c) == CounterValue(counters, c) - BoundTo(Retired(tracked, query), slots, c)
    ensures Conserved(Keep(tracked, query), slots - Elems(Retired(tracked, query)), counters')
  {
    var kept, retired := Keep(tracked, query), Retired(tracked, query);
    var slots' := slots - Elems(retired);
    KeepMembers(tracked, query);
    RetiredMembers(tracked, query);
    forall c ensures CounterValue(counters', c) == BoundTo(kept, slots', c) {
      BoundToPartition(tracked, slots, c, query);
      forall id | id in kept ensures CounterOf(slots, id) == CounterOf(slots', id) {
        assert id !in retired;
      }
      BoundToFrame(kept, slots, slots', c);
    }
  }
}
