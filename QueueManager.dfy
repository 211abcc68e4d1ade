/**
 * IndexingQueueManager: the indexing queue and the processing of enqueueing
 * sessions, over an in-memory queue, the session manager's store and the
 * ordered records the ID loader pages through.
 */
module QueueManager {
  import opened Wrappers
  import opened Sessions
  import opened Queue
  import opened SessionManager

  /** The first i + n items are the first i followed by the n after them. */
  lemma PrefixSplit(q: seq<QueueItem>, i: nat, n: nat)
    requires i + n <= |q|
    ensures q[..i + n] == q[..i] + q[i..][..n]
  {
    assert forall j :: 0 <= j < i + n ==> q[..i + n][j] == (q[..i] + q[i..][..n])[j];
  }

  class IndexingQueueManager {
    const sessionManager: EnqueueingSessionManager
    /** The records of each entity, in the order of its ordering property. */
    const records: map<string, seq<Record>>
    /** Batch size of processNextBatch() without an argument. */
    const defaultBatchSize: nat
    /** Batch size of the session-processing calls without an argument. */
    const defaultSessionBatchSize: nat
    /** The queue items, oldest first. */
    var queue: seq<QueueItem>
    /** The items handed to the index writer, in the order they were taken from the queue. */
    var written: seq<QueueItem>

    ghost predicate Valid()
      reads sessionManager
    {
      && sessionManager.Valid()
      && forall e :: e in records ==> StrictlyAscending(records[e])
    }

    constructor (sessionManager: EnqueueingSessionManager, records: map<string, seq<Record>>,
                 defaultBatchSize: nat, defaultSessionBatchSize: nat)
      requires sessionManager.Valid()
      requires forall e :: e in records ==> StrictlyAscending(records[e])
      ensures Valid()
      ensures this.sessionManager == sessionManager && this.records == records
      ensures this.defaultBatchSize == defaultBatchSize && this.defaultSessionBatchSize == defaultSessionBatchSize
      ensures queue == [] && written == []
    {
      this.sessionManager := sessionManager;
      this.records := records;
      this.defaultBatchSize := defaultBatchSize;
      this.defaultSessionBatchSize := defaultSessionBatchSize;
      queue := [];
      written := [];
    }

    /** The records the ID loader finds for entity `e`: none for an entity without records. */
    function RecordsOf(e: string): (rs: seq<Record>)
      reads sessionManager
      requires Valid()
      ensures StrictlyAscending(rs)
      ensures e !in records ==> rs == []
    {
      if e in records then records[e] else []
    }

    // -------------------------------------------------------------------
    // Emptying the queue.

    /** emptyQueue(): every item is removed; the count is the former length. */
    method EmptyQueue() returns (n: nat)
      modifies this
      ensures queue == [] && n == |old(queue)|
      ensures written == old(written)
    {
      n := |queue|;
      queue := [];
    }

    /** emptyQueue(entityName): exactly the items of `e` are removed and counted. */
    method EmptyQueueFor(e: string) returns (n: nat)
      modifies this
      ensures n == CountFor(old(queue), e)
      ensures queue == WithoutEntity(old(queue), e)
      ensures written == old(written)
    {
      n := CountFor(queue, e);
      queue := WithoutEntity(queue, e);
    }

    // -------------------------------------------------------------------
    // Enqueueing instances and ids.

    /** enqueueIndex(instance) and enqueueIndexByEntityId(id): one INDEX item at the end. */
    method EnqueueIndex(ref: EntityRef) returns (n: nat)
      modifies this
      ensures queue == old(queue) + [QueueItem(ref.entityName, ref.id, Index)]
      ensures n == 1
      ensures written == old(written)
    {
      n := EnqueueCollection([ref], Index);
    }

    /** enqueueIndexCollection and enqueueIndexCollectionByEntityIds: one INDEX item per reference, in order. */
    method EnqueueIndexCollection(refs: seq<EntityRef>) returns (n: nat)
      modifies this
      ensures queue == old(queue) + ItemsFor(refs, Index)
      ensures n == |refs|
      ensures written == old(written)
    {
      n := EnqueueCollection(refs, Index);
    }

    /** enqueueDelete(instance) and enqueueDeleteByEntityId(id): one DELETE item at the end. */
    method EnqueueDelete(ref: EntityRef) returns (n: nat)
      modifies this
      ensures queue == old(queue) + [QueueItem(ref.entityName, ref.id, Delete)]
      ensures n == 1
      ensures written == old(written)
    {
      n := EnqueueCollection([ref], Delete);
    }

    /** enqueueDeleteCollection and enqueueDeleteCollectionByEntityIds: one DELETE item per reference, in order. */
    method EnqueueDeleteCollection(refs: seq<EntityRef>) returns (n: nat)
      modifies this
      ensures queue == old(queue) + ItemsFor(refs, Delete)
      ensures n == |refs|
      ensures written == old(written)
    {
      n := EnqueueCollection(refs, Delete);
    }

    /** Appends one `op` item per reference and counts them. */
    method EnqueueCollection(refs: seq<EntityRef>, op: Operation) returns (n: nat)
      modifies this
      ensures queue == old(queue) + ItemsFor(refs, op)
      ensures n == |refs|
      ensures written == old(written)
    {
      n := 0;
      while n < |refs|
        invariant n <= |refs|
        invariant queue == old(queue) + ItemsFor(refs[..n], op)
        invariant written == old(written)
      {
        assert ItemsFor(refs[..n + 1], op) == ItemsFor(refs[..n], op) + [QueueItem(refs[n].entityName, refs[n].id, op)];
        queue := queue + [QueueItem(refs[n].entityName, refs[n].id, op)];
        n := n + 1;
      }
      assert refs[..n] == refs;
    }

    /** enqueueIndexAll(entityName): an INDEX item for every record of an indexed entity. */
    method EnqueueIndexAll(e: string) returns (n: nat)
      requires Valid()
      modifies this
      ensures e in sessionManager.indexed ==> queue == old(queue) + RecordItems(e, RecordsOf(e)) && n == |RecordsOf(e)|
      ensures e !in sessionManager.indexed ==> queue == old(queue) && n == 0
      ensures written == old(written)
    {
      if e in sessionManager.indexed {
        var rs := RecordsOf(e);
        queue := queue + RecordItems(e, rs);
        n := |rs|;
      } else {
        n := 0;
      }
    }

    /**
     * `items` are exactly the INDEX items of the entities in `done`: per entity
     * and operation as many as the entity has records (INDEX) or none, each
     * one for the id of a record of its indexed entity, and every record of
     * every entity in `done` has its item.
     */
    ghost predicate IndexItemsOf(items: seq<QueueItem>, done: set<string>)
      reads sessionManager
      requires Valid()
    {
      && (forall e, op :: CountOp(items, e, op) == (if op == Index && e in done then |RecordsOf(e)| else 0))
      && (forall x :: x in items ==>
            && x.operation == Index && x.entityName in sessionManager.indexed
            && exists r :: r in RecordsOf(x.entityName) && r.id == x.entityId)
      && (forall e, r :: e in done && r in RecordsOf(e) ==> QueueItem(e, r.id, Index) in items)
    }

    /**
     * enqueueIndexAll(): every record of every indexed entity is enqueued as
     * an INDEX item, and nothing else is added.
     */
    method EnqueueIndexAllEntities() returns (n: nat)
      requires Valid()
      modifies this
      ensures |queue| == |old(queue)| + n && queue[..|old(queue)|] == old(queue)
      ensures IndexItemsOf(queue[|old(queue)|..], sessionManager.indexed)
      ensures written == old(written)
    {
      var remaining := sessionManager.indexed;
      ghost var added: seq<QueueItem> := [];
      n := 0;
      while remaining != {}
        invariant remaining <= sessionManager.indexed
        invariant queue == old(queue) + added && n == |added|
        invariant IndexItemsOf(added, sessionManager.indexed - remaining)
        invariant written == old(written)
        decreases |remaining|
      {
        var e :| e in remaining;
        var c := EnqueueIndexAll(e);
        AddEntityItems(added, e, remaining);
        added := added + RecordItems(e, RecordsOf(e));
        n := n + c;
        remaining := remaining - {e};
      }
      AllEntitiesAdded(old(queue), queue, added, remaining);
    }

    /** One step of enqueueIndexAll(): appending the items of one more indexed entity. */
    lemma AddEntityItems(added: seq<QueueItem>, e: string, remaining: set<string>)
      requires Valid() && e in remaining && remaining <= sessionManager.indexed
      requires IndexItemsOf(added, sessionManager.indexed - remaining)
      ensures IndexItemsOf(added + RecordItems(e, RecordsOf(e)), sessionManager.indexed - (remaining - {e}))
    {
      var done := sessionManager.indexed - remaining;
      assert sessionManager.indexed - (remaining - {e}) == done + {e};
      var items := RecordItems(e, RecordsOf(e));
      forall x, op ensures CountOp(added + items, x, op) ==
        if op == Index && x in done + {e} then |RecordsOf(x)| else 0
      {
        CountOpAppend(added, items, x, op);
        CountOpRecordItems(e, RecordsOf(e), x, op);
      }
      RecordItemsOfRecords(e, RecordsOf(e));
      RecordItemsCoverRecords(e, RecordsOf(e));
    }

    /** At the end of enqueueIndexAll(): the old queue is a prefix and the rest holds every entity's items. */
    lemma AllEntitiesAdded(q0: seq<QueueItem>, q: seq<QueueItem>, added: seq<QueueItem>, remaining: set<string>)
      requires Valid() && q == q0 + added && remaining == {}
      requires IndexItemsOf(added, sessionManager.indexed - remaining)
      ensures q[..|q0|] == q0
      ensures IndexItemsOf(q[|q0|..], sessionManager.indexed)
    {
      assert sessionManager.indexed - remaining == sessionManager.indexed;
      assert q[|q0|..] == added;
    }

    // -------------------------------------------------------------------
    // Enqueueing sessions.

    /** initAsyncEnqueueIndexAll(entityName): initSession without restart. */
    method InitAsyncEnqueueIndexAll(e: string) returns (r: Result<bool, Error>)
      requires Valid()
      modifies sessionManager, sessionManager.locker
      ensures Valid()
      ensures sessionManager.ManagementPost(e, InitAction(false), old(sessionManager.sessions),
                                            old(sessionManager.clock), old(sessionManager.locker.held), r)
      ensures e in old(sessionManager.sessions) && old(sessionManager.sessions)[e].action != Stop ==>
        sessionManager.sessions == old(sessionManager.sessions)
    {
      r := InitAsyncEnqueueIndexAllWithRestart(e, false);
    }

    /**
     * initAsyncEnqueueIndexAll(entityName, restart): no effect on an active
     * session unless `restart`; otherwise the session starts from the beginning.
     */
    method InitAsyncEnqueueIndexAllWithRestart(e: string, restart: bool) returns (r: Result<bool, Error>)
      requires Valid()
      modifies sessionManager, sessionManager.locker
      ensures Valid()
      ensures sessionManager.ManagementPost(e, InitAction(restart), old(sessionManager.sessions),
                                            old(sessionManager.clock), old(sessionManager.locker.held), r)
      ensures !restart && e in old(sessionManager.sessions) && old(sessionManager.sessions)[e].action != Stop ==>
        sessionManager.sessions == old(sessionManager.sessions)
      ensures e in sessionManager.indexed && r == Ok(true) && InitRewrites(old(sessionManager.sessions), e, restart) ==>
        && e in sessionManager.sessions
        && sessionManager.sessions[e].action == Execute
        && sessionManager.sessions[e].lastProcessedValue.None?
        && ResolveOrderingProperty(sessionManager.metadata[e]) == Ok(sessionManager.sessions[e].orderingProperty)
    {
      r := sessionManager.InitSessionWithRestart(e, restart);
    }

    /**
     * What initAsyncEnqueueIndexAll() leaves for entity `x`: its session
     * as it was, or (for an indexed entity whose session was missing or
     * stopped) a session initialised from the start.
     */
    ghost predicate InitAllOutcome(x: string, store0: Store, store1: Store)
      reads this, sessionManager
      requires Valid()
    {
      || ((x in store1 <==> x in store0) && (x in store0 ==> store1[x] == store0[x]))
      || (&& x in sessionManager.indexed
          && InitRewrites(store0, x, false)
          && x in store1
          && store1[x].action == Execute
          && store1[x].lastProcessedValue.None?
          && ResolveOrderingProperty(sessionManager.metadata[x]) == Ok(store1[x].orderingProperty))
    }

    /**
     * initAsyncEnqueueIndexAll(): initSession for every indexed entity,
     * stopping at the first error, which is returned.
     */
    method InitAsyncEnqueueIndexAllEntities() returns (err: Option<Error>)
      requires Valid()
      modifies sessionManager, sessionManager.locker
      ensures Valid()
      ensures sessionManager.locker.held == old(sessionManager.locker.held)
      ensures forall x :: InitAllOutcome(x, old(sessionManager.sessions), sessionManager.sessions)
      ensures forall x :: x !in sessionManager.indexed ==>
        (x in sessionManager.sessions <==> x in old(sessionManager.sessions))
      ensures err.Some? ==> err.value.UuidPropertyMissing? || err.value.NoPrimaryKey?
    {
      var remaining := sessionManager.indexed;
      ghost var store0 := sessionManager.sessions;
      err := None;
      while remaining != {}
        invariant Valid()
        invariant remaining <= sessionManager.indexed
        invariant sessionManager.locker.held == old(sessionManager.locker.held)
        invariant forall x :: InitAllOutcome(x, store0, sessionManager.sessions)
        invariant forall x :: x in remaining || x !in sessionManager.indexed ==>
          (x in sessionManager.sessions <==> x in store0) && (x in store0 ==> sessionManager.sessions[x] == store0[x])
        invariant err.Some? ==> err.value.UuidPropertyMissing? || err.value.NoPrimaryKey?
        decreases |remaining|
      {
        var e :| e in remaining;
        ghost var before, clock := sessionManager.sessions, sessionManager.clock;
        var r := sessionManager.InitSessionWithRestart(e, false);
        InitStep(e, store0, before, clock, sessionManager.sessions, r);
        if r.Err? {
          return Some(r.error);
        }
        remaining := remaining - {e};
      }
    }

    /** One initSession call of initAsyncEnqueueIndexAll(): only entity `e` changes, as InitAllOutcome says. */
    lemma InitStep(e: string, store0: Store, before: Store, clock: nat, after: Store, r: Result<bool, Error>)
      requires Valid() && e in sessionManager.indexed
      requires (e in before <==> e in store0) && (e in store0 ==> before[e] == store0[e])
      requires forall x :: InitAllOutcome(x, store0, before)
      requires sessionManager.ActionDone(e, InitAction(false), before, clock, after, r)
      ensures forall x :: x != e ==> (x in after <==> x in before) && (x in before ==> after[x] == before[x])
      ensures forall x :: InitAllOutcome(x, store0, after)
      ensures r.Err? ==> after == before && (r.error.UuidPropertyMissing? || r.error.NoPrimaryKey?)
    {
      forall x | x != e
        ensures (x in after <==> x in before) && (x in before ==> after[x] == before[x])
      {
      }
      forall x
        ensures InitAllOutcome(x, store0, after)
      {
        if x != e {
          assert InitAllOutcome(x, store0, before);
        }
      }
    }

    method SuspendAsyncEnqueueIndexAll(e: string) returns (r: Result<bool, Error>)
      requires Valid()
      modifies sessionManager, sessionManager.locker
      ensures Valid()
      ensures sessionManager.ManagementPost(e, SuspendAction, old(sessionManager.sessions),
                                            old(sessionManager.clock), old(sessionManager.locker.held), r)
    {
      r := sessionManager.SuspendSession(e);
    }

    method ResumeAsyncEnqueueingIndexAll(e: string) returns (r: Result<bool, Error>)
      requires Valid()
      modifies sessionManager, sessionManager.locker
      ensures Valid()
      ensures sessionManager.ManagementPost(e, ResumeAction, old(sessionManager.sessions),
                                            old(sessionManager.clock), old(sessionManager.locker.held), r)
    {
      r := sessionManager.ResumeSession(e);
    }

    method StopAsyncEnqueueIndexAll(e: string) returns (r: Result<bool, Error>)
      requires Valid()
      modifies sessionManager, sessionManager.locker
      ensures Valid()
      ensures sessionManager.ManagementPost(e, StopAction, old(sessionManager.sessions),
                                            old(sessionManager.clock), old(sessionManager.locker.held), r)
    {
      r := sessionManager.StopSession(e);
    }

    // -------------------------------------------------------------------
    // Processing enqueueing sessions.

    /**
     * One processing call on the session of `e` as it was in `store0`: either
     * the entity's lock was not obtained, so 0 is returned and neither the
     * queue nor the store changes, or the whole step ran: its `n` items were
     * appended to `queue0` and the store shows its outcome for `e`.
     */
    ghost predicate SessionProcessed(e: string, batchSize: nat, store0: Store, queue0: seq<QueueItem>, n: nat)
      reads this, sessionManager
      requires Valid()
    {
      && e in store0
      && CursorReadable(store0[e])
      && var step := ProcessSession(store0[e], RecordsOf(e), batchSize);
      && ((n == 0 && queue == queue0 && sessionManager.sessions == store0) ||
          (n == step.count && queue == queue0 + step.items && sessionManager.sessions == StoreAfter(store0, e, step.next)))
    }

    /**
     * processEnqueueingSessionInternal, under the entity's lock: when the lock
     * is not obtained nothing happens and 0 is returned; otherwise the session
     * is processed once.
     */
    method ProcessSessionInternal(s: Session, batchSize: nat) returns (n: nat)
      requires Valid()
      requires s.entityName in sessionManager.sessions && sessionManager.sessions[s.entityName] == s
      modifies this, sessionManager, sessionManager.locker
      ensures Valid()
      ensures SessionProcessed(s.entityName, batchSize, old(sessionManager.sessions), old(queue), n)
      ensures s.entityName in old(sessionManager.locker.held) ==>
        n == 0 && queue == old(queue) && sessionManager.sessions == old(sessionManager.sessions)
      ensures sessionManager.locker.held == old(sessionManager.locker.held)
      ensures written == old(written)
    {
      var e := s.entityName;
      var locked := sessionManager.locker.TryLock(e);
      if !locked {
        return 0;
      }
      // try { process } finally { unlock }
      n := ProcessLocked(s, batchSize);
      sessionManager.locker.Unlock(e);
    }

    /**
     * The processing step itself, with the entity's lock held: SKIP enqueues
     * nothing; STOP removes the session; EXECUTE enqueues the next page of
     * records, then removes the session after a short page or records the
     * last ordering value of a full one.
     */
    method ProcessLocked(s: Session, batchSize: nat) returns (n: nat)
      requires Valid()
      requires s.entityName in sessionManager.sessions && sessionManager.sessions[s.entityName] == s
      modifies this, sessionManager
      ensures Valid()
      ensures var step := ProcessSession(s, RecordsOf(s.entityName), batchSize);
        && n == step.count
        && queue == old(queue) + step.items
        && sessionManager.sessions == StoreAfter(old(sessionManager.sessions), s.entityName, step.next)
      ensures written == old(written)
    {
      var e := s.entityName;
      match s.action
      case Skip =>
        n := 0;
      case Stop =>
        var _ := sessionManager.RunAction(e, RemoveAction);
        assert sessionManager.sessions == old(sessionManager.sessions) - {e};
        n := 0;
      case Execute =>
        n := ProcessPage(s, batchSize);
    }

    /** An executing session under its lock: the next page is enqueued and the cursor saved, or the session removed. */
    method ProcessPage(s: Session, batchSize: nat) returns (n: nat)
      requires Valid() && s.action == Execute
      requires s.entityName in sessionManager.sessions && sessionManager.sessions[s.entityName] == s
      modifies this, sessionManager
      ensures Valid()
      ensures var step := ProcessSession(s, RecordsOf(s.entityName), batchSize);
        && n == step.count
        && queue == old(queue) + step.items
        && sessionManager.sessions == StoreAfter(old(sessionManager.sessions), s.entityName, step.next)
      ensures written == old(written)
    {
      var e := s.entityName;
      var page := Page(RecordsOf(e), CursorValue(s.lastProcessedValue), batchSize);
      ghost var step := ProcessSession(s, RecordsOf(e), batchSize);
      assert step.items == RecordItems(e, page) && step.count == |page|;
      queue := queue + RecordItems(e, page);
      n := |page|;
      if |page| < batchSize {
        var _ := sessionManager.RunAction(e, RemoveAction);
        assert sessionManager.sessions == old(sessionManager.sessions) - {e};
      } else if |page| > 0 {
        var v := page[|page| - 1].orderingValue;
        var _ := sessionManager.RunAction(e, UpdateOrderingAction(Some(v)));
        assert sessionManager.sessions == old(sessionManager.sessions)[e := s.(lastProcessedValue := CursorOf(Some(v)))];
      }
    }

    /**
     * processEnqueueingSession(entityName, batchSize): the entity's session,
     * if any, is processed once; an entity that is not indexed is an error.
     */
    method ProcessEnqueueingSession(e: string, batchSize: nat) returns (r: Result<nat, Error>)
      requires Valid()
      modifies this, sessionManager, sessionManager.locker
      ensures Valid()
      ensures e !in sessionManager.indexed ==>
        r == Err(NotIndexed(e)) && queue == old(queue) && sessionManager.sessions == old(sessionManager.sessions)
      ensures e in sessionManager.indexed && e !in old(sessionManager.sessions) ==>
        r == Ok(0) && queue == old(queue) && sessionManager.sessions == old(sessionManager.sessions)
      ensures e in sessionManager.indexed && e in old(sessionManager.sessions) ==>
        r.Ok? && SessionProcessed(e, batchSize, old(sessionManager.sessions), old(queue), r.value)
      ensures e in old(sessionManager.sessions) && old(sessionManager.sessions)[e].action == Skip ==>
        r == Ok(0) && queue == old(queue) && sessionManager.sessions == old(sessionManager.sessions)
      ensures e in old(sessionManager.sessions) && old(sessionManager.sessions)[e].action == Stop ==>
        && r == Ok(0) && queue == old(queue)
        && (sessionManager.sessions == old(sessionManager.sessions) ||
            sessionManager.sessions == old(sessionManager.sessions) - {e})
      ensures e in sessionManager.indexed && e in old(sessionManager.locker.held) ==>
        r == Ok(0) && queue == old(queue) && sessionManager.sessions == old(sessionManager.sessions)
      ensures r.Ok? ==> r.value <= batchSize && |queue| == |old(queue)| + r.value
      ensures sessionManager.locker.held == old(sessionManager.locker.held)
      ensures written == old(written)
    {
      var g := sessionManager.GetSession(e);
      if g.Err? {
        return Err(g.error);
      }
      if g.value.None? {
        return Ok(0);
      }
      var n := ProcessSessionInternal(g.value.value, batchSize);
      r := Ok(n);
    }

    /** processEnqueueingSession(entityName): with the default session batch size. */
    method ProcessEnqueueingSessionDefault(e: string) returns (r: Result<nat, Error>)
      requires Valid()
      modifies this, sessionManager, sessionManager.locker
      ensures Valid()
      ensures e !in sessionManager.indexed ==>
        r == Err(NotIndexed(e)) && queue == old(queue) && sessionManager.sessions == old(sessionManager.sessions)
      ensures e in sessionManager.indexed && e !in old(sessionManager.sessions) ==>
        r == Ok(0) && queue == old(queue) && sessionManager.sessions == old(sessionManager.sessions)
      ensures e in sessionManager.indexed && e in old(sessionManager.sessions) ==>
        r.Ok? && SessionProcessed(e, defaultSessionBatchSize, old(sessionManager.sessions), old(queue), r.value)
      ensures e in old(sessionManager.sessions) && old(sessionManager.sessions)[e].action == Skip ==>
        r == Ok(0) && queue == old(queue) && sessionManager.sessions == old(sessionManager.sessions)
      ensures e in old(sessionManager.sessions) && old(sessionManager.sessions)[e].action == Stop ==>
        && r == Ok(0) && queue == old(queue)
        && (sessionManager.sessions == old(sessionManager.sessions) ||
            sessionManager.sessions == old(sessionManager.sessions) - {e})
      ensures e in sessionManager.indexed && e in old(sessionManager.locker.held) ==>
        r == Ok(0) && queue == old(queue) && sessionManager.sessions == old(sessionManager.sessions)
      ensures r.Ok? ==> r.value <= defaultSessionBatchSize && |queue| == |old(queue)| + r.value
      ensures sessionManager.locker.held == old(sessionManager.locker.held)
      ensures written == old(written)
    {
      r := ProcessEnqueueingSession(e, defaultSessionBatchSize);
    }

    /**
     * processNextEnqueueingSession(batchSize): the session created first is
     * processed once; with no session nothing happens.
     */
    method ProcessNextEnqueueingSession(batchSize: nat) returns (n: nat)
      requires Valid()
      modifies this, sessionManager, sessionManager.locker
      ensures Valid()
      ensures old(sessionManager.sessions) == map[] ==>
        n == 0 && queue == old(queue) && sessionManager.sessions == old(sessionManager.sessions)
      ensures old(sessionManager.sessions) != map[] ==>
        exists e :: IsEarliest(old(sessionManager.sessions), e) &&
          SessionProcessed(e, batchSize, old(sessionManager.sessions), old(queue), n)
      ensures n <= batchSize && |queue| == |old(queue)| + n
      ensures sessionManager.locker.held == old(sessionManager.locker.held)
      ensures written == old(written)
    {
      var next := sessionManager.GetNextSession();
      if next.None? {
        return 0;
      }
      var e := next.value.entityName;
      n := ProcessSessionInternal(next.value, batchSize);
      assert IsEarliest(old(sessionManager.sessions), e);
    }

    /** processNextEnqueueingSession(): with the default session batch size. */
    method ProcessNextEnqueueingSessionDefault() returns (n: nat)
      requires Valid()
      modifies this, sessionManager, sessionManager.locker
      ensures Valid()
      ensures old(sessionManager.sessions) == map[] ==>
        n == 0 && queue == old(queue) && sessionManager.sessions == old(sessionManager.sessions)
      ensures old(sessionManager.sessions) != map[] ==>
        exists e :: IsEarliest(old(sessionManager.sessions), e) &&
          SessionProcessed(e, defaultSessionBatchSize, old(sessionManager.sessions), old(queue), n)
      ensures n <= defaultSessionBatchSize && |queue| == |old(queue)| + n
      ensures sessionManager.locker.held == old(sessionManager.locker.held)
      ensures written == old(written)
    {
      n := ProcessNextEnqueueingSession(defaultSessionBatchSize);
    }

    // -------------------------------------------------------------------
    // Processing the queue.

    /**
     * processNextBatch(batchSize): the oldest min(batchSize, |queue|) items
     * are handed to the index writer, in order, removed, and counted.
     */
    method ProcessNextBatch(batchSize: nat) returns (n: nat)
      modifies this
      ensures n == if batchSize < |old(queue)| then batchSize else |old(queue)|
      ensures queue == old(queue)[n..]
      ensures written == old(written) + old(queue)[..n]
    {
      n := 0;
      while n < batchSize && queue != []
        invariant n <= batchSize && n <= |old(queue)|
        invariant queue == old(queue)[n..]
        invariant written == old(written) + old(queue)[..n]
        decreases batchSize - n
      {
        assert old(queue)[..n + 1] == old(queue)[..n] + [queue[0]];
        written := written + [queue[0]];
        queue := queue[1..];
        n := n + 1;
      }
    }

    /** processNextBatch(): with the default batch size. */
    method ProcessNextBatchDefault() returns (n: nat)
      modifies this
      ensures n == if defaultBatchSize < |old(queue)| then defaultBatchSize else |old(queue)|
      ensures queue == old(queue)[n..]
      ensures written == old(written) + old(queue)[..n]
    {
      n := ProcessNextBatch(defaultBatchSize);
    }

    /**
     * processEntireQueue(): batches of the default size until one comes back
     * empty; with a positive batch size the whole queue is written, in order.
     */
    method ProcessEntireQueue() returns (total: nat)
      modifies this
      ensures total <= |old(queue)|
      ensures queue == old(queue)[total..] && written == old(written) + old(queue)[..total]
      ensures defaultBatchSize > 0 ==> queue == [] && total == |old(queue)|
      ensures defaultBatchSize == 0 ==> total == 0
    {
      var n := ProcessNextBatch(defaultBatchSize);
      total := n;
      while n > 0
        invariant total <= |old(queue)|
        invariant queue == old(queue)[total..] && written == old(written) + old(queue)[..total]
        invariant n == 0 ==> defaultBatchSize == 0 || queue == []
        invariant defaultBatchSize == 0 ==> total == 0
        decreases |queue| + (if n > 0 then 1 else 0)
      {
        n := ProcessNextBatch(defaultBatchSize);
        PrefixSplit(old(queue), total, n);
        total := total + n;
      }
    }
  }
}
