# Enqueueing sessions, the indexing queue and mapping builders of jmix-search

A Dafny model of three parts of the jmix-search module:

- **EnqueueingSessionManager**: the lifecycle of enqueueing sessions.
  - The store keeps at most one session per entity.
  - Each session has an action (EXECUTE, SKIP, STOP), an ordering property and a nullable cursor (`lastProcessedValue`).
  - Every management operation goes through `executeManagementAction`. That method refuses non-indexed entities, takes the entity's lock with a try-lock, and always releases the lock.
  - The pure transition table is in `Sessions.dfy`. The manager class and its lock are in `SessionManager.dfy`.
- **IndexingQueueManager**: the indexing queue and the processing of enqueueing sessions.
  - The queue holds `(entity, id, INDEX | DELETE)` items.
  - Processing a session pages through the entity's records in the order of its ordering property.
  - The values and the single processing step are in `Queue.dfy`. The class holding the queue, the written items and the session manager is in `QueueManager.dfy`.
- **The mapping builders**, with their defaults, last-write-wins setters, lazily created parameter map and append-ordered element list.
  - `MappingProcessor.dfy` covers `MappingDefinitionElement` and its builder.
  - `Mapping.dfy` covers `MappingDefinition` and its builder.

Decisions about the environment:

- **Lock.** The indexing locker is a `Locker` object holding the set of held locks. A try-lock on a held lock fails. On a free lock its outcome is not determined, which stands for the timeout.
- **Ordering values and cursors.** Ordering values are natural numbers. `convertOrderingValueToString` (`toString()`) is their decimal rendering, and the ID loader reads the cursor back as a number.
- **ID loader.** It is a strictly ascending sequence of records per entity. A page is at most `batchSize` records strictly after the cursor.
- **Creation dates.** The data store's `createdDate` is a logical clock. It advances on each locked action.
- **Exceptions.** The `IllegalArgumentException`s are the `Err` values of a `Result`.

`IndexingQueueManager` is an interface. Its model follows the interface's doc comments and `AsyncEnqueueingTest`; the implementation class is not part of this model. Under that reading, processing a session behaves as follows:

- SKIP enqueues nothing and keeps the session.
- STOP enqueues nothing and removes the session.
- EXECUTE enqueues one INDEX item per record of the next page. It then removes the session if the page is short, and otherwise stores the page's last ordering value as the cursor.

A processing call first tries the entity's lock. If the lock is not obtained, the call returns 0 and changes nothing: no items, no store write. Otherwise it holds the lock for the whole call, and its store writes are the session manager's own remove and cursor-update actions, run under that lock.

The builders share state with what they build. The Java code puts the builder's own parameter `HashMap` into the element, and the builder's own `ArrayList` into the definition. The model keeps that sharing with reference objects (`ParameterMap`, `ElementList`). `AddAfterBuild` in each module shows its effect.

## Model

| member | source | states |
|---|---|---|
| `Decimal.ToDecimal` | search/src/main/java/io/jmix/search/index/queue/impl/EnqueueingSessionManager.java:224-226 | the string an ordering value is stored as is a non-empty run of digits with no leading zero |
| `Decimal.ParseToDecimal` | search/src/main/java/io/jmix/search/index/queue/impl/EnqueueingSessionManager.java:224-226 | a stored cursor reads back as the ordering value it was made from |
| `Decimal.ParseDecimal` | search/src/main/java/io/jmix/search/index/queue/impl/EnqueueingSessionManager.java:224-226 | a cursor of n digits reads back as a value below 10^n, and at least 10^(n-1) when it has no leading zero |
| `Decimal.ToDecimalInjective` | search/src/main/java/io/jmix/search/index/queue/impl/EnqueueingSessionManager.java:224-226 | two ordering values give the same cursor exactly when they are equal |
| `Sessions.ResolveOrderingProperty` | search/src/main/java/io/jmix/search/index/queue/impl/EnqueueingSessionManager.java:185-201 | composite key and UUID: the UUID property, or the missing-UUID error; otherwise the primary key property, or the no-primary-key error naming the entity |
| `Sessions.CursorOf` | search/src/main/java/io/jmix/search/index/queue/impl/EnqueueingSessionManager.java:167-172 | a null value gives no cursor; a value gives a decimal cursor that parses back to it |
| `Sessions.InitTransition` | search/src/main/java/io/jmix/search/index/queue/impl/EnqueueingSessionManager.java:56-81 | an existing session that is not stopped and no restart: true, store unchanged; otherwise the entity's one record is (re)written as EXECUTE with the resolved property, no cursor and the old creation date if it existed; an error exactly when a rewrite needs a property that cannot be resolved; no other entity changes |
| `Sessions.SuspendTransition` | search/src/main/java/io/jmix/search/index/queue/impl/EnqueueingSessionManager.java:83-99 | true exactly when a session exists and is not STOP; EXECUTE becomes SKIP, anything else is kept; other entities untouched |
| `Sessions.ResumeTransition` | search/src/main/java/io/jmix/search/index/queue/impl/EnqueueingSessionManager.java:101-117 | true exactly when a session exists and is not STOP; SKIP becomes EXECUTE, anything else is kept; other entities untouched |
| `Sessions.StopTransition` | search/src/main/java/io/jmix/search/index/queue/impl/EnqueueingSessionManager.java:119-131 | true exactly when a session exists; it becomes STOP; other entities untouched |
| `Sessions.RemoveTransition` | search/src/main/java/io/jmix/search/index/queue/impl/EnqueueingSessionManager.java:133-139 | always true; exactly the entity's session is gone |
| `Sessions.UpdateOrderingTransition` | search/src/main/java/io/jmix/search/index/queue/impl/EnqueueingSessionManager.java:159-178 | true exactly when a session exists; only its cursor changes, to the serialised value or to none; other entities untouched |
| `Sessions.ApplyAction` | search/src/main/java/io/jmix/search/index/queue/impl/EnqueueingSessionManager.java:211-213 | only the init action can raise an error |
| `Sessions.ApplyActionKeepsWellFormed` | search/src/main/java/io/jmix/search/index/queue/impl/EnqueueingSessionManager.java:56-178 | every action keeps the store invariant: a session per entity under its own name, only indexed entities, readable cursors |
| `Sessions.EarliestExists` | search/src/main/java/io/jmix/search/index/queue/impl/EnqueueingSessionManager.java:153-157 | a non-empty store has a session with the earliest creation date |
| `Sessions.InitCreatesOneSession` | search/src/main/java/io/jmix/search/index/queue/impl/EnqueueingSessionManager.java:66-79 | init without an existing session returns true and adds exactly one EXECUTE session with the resolved property and no cursor |
| `Sessions.RestartReusesRecord` | search/src/main/java/io/jmix/search/index/queue/impl/EnqueueingSessionManager.java:60-78 | restart, or init of a stopped session, keeps one session per name, resets it to EXECUTE without cursor and keeps its creation date |
| `Sessions.InitIdempotent` | search/src/main/java/io/jmix/search/index/queue/impl/EnqueueingSessionManager.java:60-65 | a second init without restart returns true and changes nothing |
| `Sessions.SuspendResumeRestores` | search/src/main/java/io/jmix/search/index/queue/impl/EnqueueingSessionManager.java:83-117 | suspend then resume of an executing session gives back the original store, cursor included |
| `Sessions.TransitionsIdempotent` | search/src/main/java/io/jmix/search/index/queue/impl/EnqueueingSessionManager.java:83-131 | a second suspend, resume or stop returns what the first did and changes nothing |
| `Sessions.UpdateOrderingRoundTrip` | search/src/main/java/io/jmix/search/index/queue/impl/EnqueueingSessionManager.java:159-178 | after updateOrderingValue(v) the cursor reads back as v |
| `SessionManager.Locker.TryLock` | search/src/main/java/io/jmix/search/index/queue/impl/EnqueueingSessionManager.java:206-209 | a held lock is never obtained; a free one may or may not be, and is held afterwards if it was |
| `SessionManager.Locker.Unlock` | search/src/main/java/io/jmix/search/index/queue/impl/EnqueueingSessionManager.java:213-215 | the lock is free afterwards |
| `SessionManager.EnqueueingSessionManager.ExecuteManagementAction` | search/src/main/java/io/jmix/search/index/queue/impl/EnqueueingSessionManager.java:203-222 | non-indexed entity: error, nothing changes; lock not obtained: false, store unchanged; otherwise the action's result and store; the held-lock set is the same on exit; the store invariant is kept |
| `SessionManager.EnqueueingSessionManager.RunAction` | search/src/main/java/io/jmix/search/index/queue/impl/EnqueueingSessionManager.java:211-213 | the action run with the lock held: its transition's result and store, or its error with the store unchanged; the store invariant is kept |
| `SessionManager.EnqueueingSessionManager.InitSession` | search/src/main/java/io/jmix/search/index/queue/impl/EnqueueingSessionManager.java:52-54 | the same outcome as InitSessionWithRestart with restart false |
| `SessionManager.EnqueueingSessionManager.InitSessionWithRestart` | search/src/main/java/io/jmix/search/index/queue/impl/EnqueueingSessionManager.java:56-81 | the management outcome of the init transition |
| `SessionManager.EnqueueingSessionManager.SuspendSession` | search/src/main/java/io/jmix/search/index/queue/impl/EnqueueingSessionManager.java:83-99 | the management outcome of the suspend transition |
| `SessionManager.EnqueueingSessionManager.ResumeSession` | search/src/main/java/io/jmix/search/index/queue/impl/EnqueueingSessionManager.java:101-117 | the management outcome of the resume transition |
| `SessionManager.EnqueueingSessionManager.StopSession` | search/src/main/java/io/jmix/search/index/queue/impl/EnqueueingSessionManager.java:119-131 | the management outcome of the stop transition |
| `SessionManager.EnqueueingSessionManager.RemoveSession` | search/src/main/java/io/jmix/search/index/queue/impl/EnqueueingSessionManager.java:133-139 | the management outcome of removing the session's entity row |
| `SessionManager.EnqueueingSessionManager.UpdateOrderingValue` | search/src/main/java/io/jmix/search/index/queue/impl/EnqueueingSessionManager.java:159-178 | the management outcome of the cursor update |
| `SessionManager.EnqueueingSessionManager.GetSession` | search/src/main/java/io/jmix/search/index/queue/impl/EnqueueingSessionManager.java:141-151 | an error exactly for a non-indexed entity; otherwise the entity's session, or none exactly when it has none |
| `SessionManager.EnqueueingSessionManager.GetNextSession` | search/src/main/java/io/jmix/search/index/queue/impl/EnqueueingSessionManager.java:153-157 | none exactly when there is no session; otherwise a stored session with the earliest creation date |
| `Queue.ItemsFor` | search/src/main/java/io/jmix/search/index/queue/IndexingQueueManager.java:51-73 | one item per reference, same order, same entity and id, the given operation |
| `Queue.WithoutEntity` | search/src/main/java/io/jmix/search/index/queue/IndexingQueueManager.java:35-41 | no item of the entity is left, as many items are gone as the entity had, and every other item keeps its multiplicity |
| `Queue.EmptyAfterEnqueue` | search/src/main/java/io/jmix/search/index/queue/IndexingQueueManager.java:35-73 | enqueueing n references of an entity raises its count by n, and emptying it afterwards leaves none |
| `Queue.After` | search/src/main/java/io/jmix/search/index/queue/impl/CommonJpaEntityIdsLoader.java:30-43 | never more records than the scan holds, and all of them when there is no cursor |
| `Queue.AfterAboveCursor` | search/src/main/java/io/jmix/search/index/queue/impl/CommonJpaEntityIdsLoader.java:30-43 | every record after the cursor is a record of the scan whose ordering value is strictly above the cursor |
| `Queue.AboveCursorInAfter` | search/src/main/java/io/jmix/search/index/queue/impl/CommonJpaEntityIdsLoader.java:30-43 | conversely, every record of the scan whose ordering value is above the cursor, or any record when there is no cursor, is after the cursor |
| `Queue.AfterRecord` | search/src/main/java/io/jmix/search/index/queue/impl/CommonJpaEntityIdsLoader.java:30-43 | in an ascending scan, the records after record k's ordering value are exactly those following k |
| `Queue.Page` | search/src/main/java/io/jmix/search/index/queue/impl/CommonJpaEntityIdsLoader.java:30-43 | at most the batch size, a prefix of the records after the cursor, and all of them when the page is short |
| `Queue.ExecuteStep` | search/src/main/java/io/jmix/search/index/queue/IndexingQueueManager.java:152-178 | an EXECUTE call enqueues at most the batch size; the session is removed exactly when fewer items than the batch size were enqueued, and kept without moving exactly when the batch size is 0 |
| `Queue.ExecuteStepAdvances` | search/src/main/java/io/jmix/search/index/queue/impl/CommonJpaEntityIdsLoader.java:30-43 | the cursor only moves to the ordering value of a record after it, so strictly upwards |
| `Queue.RecordItems` | search/src/main/java/io/jmix/search/index/queue/IndexingQueueManager.java:152-178 | one INDEX item of the entity per record, in order |
| `Queue.RecordItemsOfRecords` | search/src/main/java/io/jmix/search/index/queue/IndexingQueueManager.java:85-94 | every item made from records is an INDEX item of that entity whose id is the id of one of the records |
| `Queue.RecordItemsCoverRecords` | search/src/main/java/io/jmix/search/index/queue/IndexingQueueManager.java:85-94 | every record has its INDEX item among the items made from the records |
| `Queue.ProcessSession` | search/src/main/java/io/jmix/search/index/queue/IndexingQueueManager.java:117-178 | SKIP: 0 items, session kept; STOP: 0 items, session removed; EXECUTE: the items of the next page, at most the batch size, the session removed exactly when the page is short, and after a full page the cursor set to the page's last ordering value |
| `Queue.FullPage` | search/src/main/java/io/jmix/search/index/queue/IndexingQueueManager.java:152-178 | with the cursor right before record k and at least P > 0 records left, a call enqueues records k to k+P-1 and moves the cursor to record k+P-1, after which exactly the records from k+P remain |
| `Queue.ShortPage` | search/src/main/java/io/jmix/search/index/queue/IndexingQueueManager.java:152-178 | with fewer than P records left after the cursor, a call enqueues all of them and removes the session |
| `Queue.ProcessSessionFollowsCursor` | search/src/main/java/io/jmix/search/index/queue/IndexingQueueManager.java:152-178 | an EXECUTE session enqueues the page for the cursor it stores; it is removed exactly when the step says so, and otherwise stays EXECUTE for the same entity with a stored cursor that reads back as the new position |
| `Queue.ProcessSessionProgress` | search/src/main/java/io/jmix/search/index/queue/IndexingQueueManager.java:152-178 | one call on an EXECUTE session with the cursor before record k either enqueues the whole short remainder and removes the session, or enqueues the next P records and keeps the session with its cursor before record k+P |
| `Queue.Exhaust` | search/src/main/java/io/jmix/search/index/queue/IndexingQueueManager.java:152-178 | calls repeated on an EXECUTE session whose cursor stands before record k, in pages of P > 0, remove it after CallsNeeded(remaining, P) calls but not after one call fewer, and have then enqueued every remaining record once, in order, as an INDEX item |
| `Queue.CallsNeededBounds` | search/src/main/java/io/jmix/search/index/queue/IndexingQueueManager.java:152-178 | that number of calls c is the one with (c-1)·P <= remaining < c·P |
| `Queue.FreshSessionEnqueuesAll` | search/src/main/java/io/jmix/search/index/queue/IndexingQueueManager.java:152-178 | a fresh session over N records is removed after c calls, where (c-1)·P <= N < c·P, but not after c-1; by then N INDEX items of the entity, one per record, have been enqueued |
| `Queue.ThreeRecordsTwoPerBatch` | search/src/test/java/async_enqueueing/AsyncEnqueueingTest.java:126-153 | three records, batch size 2: 2 items with the session kept and a cursor set, then 1 item with the session removed, 3 INDEX items in all |
| `Queue.SuspendedThenResumed` | search/src/test/java/async_enqueueing/AsyncEnqueueingTest.java:183-205 | a suspended session yields nothing and is kept; after resume processing is as if it had never been suspended |
| `QueueManager.IndexingQueueManager.EmptyQueue` | search/src/main/java/io/jmix/search/index/queue/IndexingQueueManager.java:28-33 | the queue is empty and the count is its former length |
| `QueueManager.IndexingQueueManager.EmptyQueueFor` | search/src/main/java/io/jmix/search/index/queue/IndexingQueueManager.java:35-41 | exactly the entity's items are removed and counted |
| `QueueManager.IndexingQueueManager.EnqueueIndex` | search/src/main/java/io/jmix/search/index/queue/IndexingQueueManager.java:43-65 | one INDEX item appended, count 1 |
| `QueueManager.IndexingQueueManager.EnqueueIndexCollection` | search/src/main/java/io/jmix/search/index/queue/IndexingQueueManager.java:51-73 | one INDEX item per reference appended in order, count the collection size |
| `QueueManager.IndexingQueueManager.EnqueueDelete` | search/src/main/java/io/jmix/search/index/queue/IndexingQueueManager.java:180-202 | one DELETE item appended, count 1 |
| `QueueManager.IndexingQueueManager.EnqueueDeleteCollection` | search/src/main/java/io/jmix/search/index/queue/IndexingQueueManager.java:188-210 | one DELETE item per reference appended in order, count the collection size |
| `QueueManager.IndexingQueueManager.EnqueueCollection` | search/src/main/java/io/jmix/search/index/queue/IndexingQueueManager.java:51-73 | the loop that appends one item per reference |
| `QueueManager.IndexingQueueManager.EnqueueIndexAll` | search/src/main/java/io/jmix/search/index/queue/IndexingQueueManager.java:85-94 | an indexed entity gets one INDEX item per record, counted; any other entity nothing |
| `QueueManager.IndexingQueueManager.EnqueueIndexAllEntities` | search/src/main/java/io/jmix/search/index/queue/IndexingQueueManager.java:75-83 | the old queue is kept as a prefix; the added items are, per entity, one INDEX item per record of each indexed entity and nothing else; each added item is an INDEX item of an indexed entity for the id of one of its records; every record of every indexed entity has its INDEX item among them |
| `QueueManager.IndexingQueueManager.AddEntityItems` | search/src/main/java/io/jmix/search/index/queue/IndexingQueueManager.java:75-83 | one step of that loop: appending one more indexed entity's items keeps the added items exactly those of the entities visited |
| `QueueManager.IndexingQueueManager.InitAsyncEnqueueIndexAll` | search/src/main/java/io/jmix/search/index/queue/IndexingQueueManager.java:98-105 | init without restart: no effect on an active session |
| `QueueManager.IndexingQueueManager.InitAsyncEnqueueIndexAllWithRestart` | search/src/main/java/io/jmix/search/index/queue/IndexingQueueManager.java:107-115 | no effect on an active session without restart; a successful (re)write leaves an EXECUTE session without cursor |
| `QueueManager.IndexingQueueManager.InitAsyncEnqueueIndexAllEntities` | search/src/main/java/io/jmix/search/index/queue/IndexingQueueManager.java:96-96 | every entity ends with its session as before or, if indexed and without an active session, initialised from the start; the first error is returned |
| `QueueManager.IndexingQueueManager.InitStep` | search/src/main/java/io/jmix/search/index/queue/IndexingQueueManager.java:96-96 | one init of that loop changes only its own entity |
| `QueueManager.IndexingQueueManager.SuspendAsyncEnqueueIndexAll` | search/src/main/java/io/jmix/search/index/queue/IndexingQueueManager.java:117-125 | the session manager's suspend outcome |
| `QueueManager.IndexingQueueManager.ResumeAsyncEnqueueingIndexAll` | search/src/main/java/io/jmix/search/index/queue/IndexingQueueManager.java:127-133 | the session manager's resume outcome |
| `QueueManager.IndexingQueueManager.StopAsyncEnqueueIndexAll` | search/src/main/java/io/jmix/search/index/queue/IndexingQueueManager.java:135-142 | the session manager's stop outcome |
| `QueueManager.IndexingQueueManager.ProcessSessionInternal` | search/src/main/java/io/jmix/search/index/queue/IndexingQueueManager.java:152-178 | the lock is tried first: when it is already held, 0 and nothing changes; otherwise either 0 and nothing changes (lock not obtained), or the count and items of ProcessSession are enqueued and the store shows its outcome; the held-lock set is the same on exit |
| `QueueManager.IndexingQueueManager.ProcessLocked` | search/src/main/java/io/jmix/search/index/queue/IndexingQueueManager.java:152-178 | with the lock held: exactly the count and items of ProcessSession are enqueued and the store shows its outcome (session kept, moved or removed) |
| `QueueManager.IndexingQueueManager.ProcessPage` | search/src/main/java/io/jmix/search/index/queue/IndexingQueueManager.java:152-178 | the EXECUTE case of ProcessLocked: the next page is enqueued, then the session is removed after a short page or its cursor set to the page's last ordering value |
| `QueueManager.IndexingQueueManager.ProcessEnqueueingSession` | search/src/main/java/io/jmix/search/index/queue/IndexingQueueManager.java:170-178 | non-indexed: error; no session: 0; entity's lock held: 0 and nothing changes; suspended: 0 and nothing changes; stopped: 0, nothing enqueued, and the session removed, or unchanged when the lock is not obtained; executing: one processing step or nothing; never more than the batch size, and the queue grows by the count |
| `QueueManager.IndexingQueueManager.ProcessEnqueueingSessionDefault` | search/src/main/java/io/jmix/search/index/queue/IndexingQueueManager.java:161-168 | the same cases with the default session batch size: error, no session, held lock, suspended, stopped, one step; at most the default batch size, the queue grows by the count, the held-lock set is the same on exit |
| `QueueManager.IndexingQueueManager.ProcessNextEnqueueingSession` | search/src/main/java/io/jmix/search/index/queue/IndexingQueueManager.java:152-159 | no session: 0 and nothing changes; otherwise one earliest session is processed once as ProcessSessionInternal states; at most the batch size, the queue grows by the count, the held-lock set is the same on exit |
| `QueueManager.IndexingQueueManager.ProcessNextEnqueueingSessionDefault` | search/src/main/java/io/jmix/search/index/queue/IndexingQueueManager.java:144-150 | the same with the default session batch size: nothing without a session, otherwise one step on an earliest session; at most the default batch size, the queue grows by the count, the held-lock set is the same on exit |
| `QueueManager.IndexingQueueManager.ProcessNextBatch` | search/src/main/java/io/jmix/search/index/queue/IndexingQueueManager.java:219-225 | the oldest min(n, length) items are written in order, removed and counted |
| `QueueManager.IndexingQueueManager.ProcessNextBatchDefault` | search/src/main/java/io/jmix/search/index/queue/IndexingQueueManager.java:212-217 | the same with the default batch size |
| `QueueManager.IndexingQueueManager.ProcessEntireQueue` | search/src/main/java/io/jmix/search/index/queue/IndexingQueueManager.java:227-232 | with a positive batch size the whole queue is written in order and emptied |
| `MappingProcessor.DefaultFields` | search/src/main/java/io/jmix/search/index/mapping/processor/MappingDefinitionElement.java:113-120 | no included or excluded properties, no strategy, configuration, extractor or order |
| `MappingProcessor.ParameterMap.Put` | search/src/main/java/io/jmix/search/index/mapping/processor/MappingDefinitionElement.java:154-154 | the name maps to the value; every other entry stays |
| `MappingProcessor.MappingDefinitionElement.constructor` | search/src/main/java/io/jmix/search/index/mapping/processor/MappingDefinitionElement.java:42-51 | every field copied from the builder; a builder without parameters gives the empty map |
| `MappingProcessor.MappingDefinitionElement.GetIncludedProperties` | search/src/main/java/io/jmix/search/index/mapping/processor/MappingDefinitionElement.java:58-60 | the included properties the element was built with |
| `MappingProcessor.MappingDefinitionElement.GetExcludedProperties` | search/src/main/java/io/jmix/search/index/mapping/processor/MappingDefinitionElement.java:67-69 | the excluded properties the element was built with |
| `MappingProcessor.MappingDefinitionElement.GetExplicitOrder` | search/src/main/java/io/jmix/search/index/mapping/processor/MappingDefinitionElement.java:97-99 | the explicit order the element was built with, or none |
| `MappingProcessor.MappingDefinitionElement.GetParameters` | search/src/main/java/io/jmix/search/index/mapping/processor/MappingDefinitionElement.java:101-103 | empty when the builder had none, otherwise the current entries of the shared map |
| `MappingProcessor.MappingDefinitionElementBuilder.constructor` | search/src/main/java/io/jmix/search/index/mapping/processor/MappingDefinitionElement.java:113-123 | the default fields and no parameter map |
| `MappingProcessor.MappingDefinitionElementBuilder.IncludeProperties` | search/src/main/java/io/jmix/search/index/mapping/processor/MappingDefinitionElement.java:125-128 | replaces the included properties, nothing else changes |
| `MappingProcessor.MappingDefinitionElementBuilder.ExcludeProperties` | search/src/main/java/io/jmix/search/index/mapping/processor/MappingDefinitionElement.java:130-133 | replaces the excluded properties, nothing else changes |
| `MappingProcessor.MappingDefinitionElementBuilder.WithFieldMappingStrategyClass` | search/src/main/java/io/jmix/search/index/mapping/processor/MappingDefinitionElement.java:135-138 | sets only the strategy class |
| `MappingProcessor.MappingDefinitionElementBuilder.WithFieldMappingStrategy` | search/src/main/java/io/jmix/search/index/mapping/processor/MappingDefinitionElement.java:140-143 | sets only the strategy |
| `MappingProcessor.MappingDefinitionElementBuilder.WithParameters` | search/src/main/java/io/jmix/search/index/mapping/processor/MappingDefinitionElement.java:145-148 | a new map with a copy of the entries replaces the earlier parameters |
| `MappingProcessor.MappingDefinitionElementBuilder.AddParameter` | search/src/main/java/io/jmix/search/index/mapping/processor/MappingDefinitionElement.java:150-156 | creates the map if absent, then the name maps to the value and all other entries stay |
| `MappingProcessor.MappingDefinitionElementBuilder.WithNativeConfiguration` | search/src/main/java/io/jmix/search/index/mapping/processor/MappingDefinitionElement.java:167-170 | sets only the field configuration, to a native one around the JSON object |
| `MappingProcessor.MappingDefinitionElementBuilder.WithPropertyValueExtractor` | search/src/main/java/io/jmix/search/index/mapping/processor/MappingDefinitionElement.java:172-175 | sets only the extractor |
| `MappingProcessor.MappingDefinitionElementBuilder.WithExplicitOrder` | search/src/main/java/io/jmix/search/index/mapping/processor/MappingDefinitionElement.java:177-180 | sets only the explicit order |
| `MappingProcessor.MappingDefinitionElementBuilder.Build` | search/src/main/java/io/jmix/search/index/mapping/processor/MappingDefinitionElement.java:182-184 | a new element with the builder's fields and the builder's own parameter map |
| `MappingProcessor.BuildDefault` | search/src/main/java/io/jmix/search/index/mapping/processor/MappingDefinitionElement.java:113-120 | a fresh builder builds empty property lists, no explicit order and an empty parameter map |
| `MappingProcessor.BuildConfigured` | search/src/main/java/io/jmix/search/index/mapping/processor/MappingDefinitionElement.java:125-180 | the last includeProperties wins, the last value of a parameter wins, earlier names stay, the explicit order reads back |
| `MappingProcessor.ReplaceParameters` | search/src/main/java/io/jmix/search/index/mapping/processor/MappingDefinitionElement.java:145-156 | withParameters drops the parameters added before it |
| `MappingProcessor.AddAfterBuild` | search/src/main/java/io/jmix/search/index/mapping/processor/MappingDefinitionElement.java:50-50 | a parameter added after build appears in the built element, which shares the map |
| `Mapping.ElementList.Add` | search/src/main/java/io/jmix/search/index/mapping/MappingDefinition.java:68-68 | the element is appended at the end |
| `Mapping.MappingDefinition.constructor` | search/src/main/java/io/jmix/search/index/mapping/MappingDefinition.java:47-49 | the definition holds the builder's list itself |
| `Mapping.MappingDefinition.GetElements` | search/src/main/java/io/jmix/search/index/mapping/MappingDefinition.java:56-58 | the elements now in the shared list |
| `Mapping.MappingDefinitionBuilder.constructor` | search/src/main/java/io/jmix/search/index/mapping/MappingDefinition.java:65-65 | a new, empty list |
| `Mapping.MappingDefinitionBuilder.AddElement` | search/src/main/java/io/jmix/search/index/mapping/MappingDefinition.java:67-70 | appends at the end and returns the same builder |
| `Mapping.MappingDefinitionBuilder.Build` | search/src/main/java/io/jmix/search/index/mapping/MappingDefinition.java:72-74 | a new definition whose elements are the builder's list |
| `Mapping.BuildEmpty` | search/src/main/java/io/jmix/search/index/mapping/MappingDefinition.java:65-74 | no addElement calls: no elements |
| `Mapping.BuildChained` | search/src/main/java/io/jmix/search/index/mapping/MappingDefinition.java:65-74 | chained calls: exactly the added elements in call order, one per call |
| `Mapping.AddAfterBuild` | search/src/main/java/io/jmix/search/index/mapping/MappingDefinition.java:47-49 | an element added after build appears in the definition, which shares the list |

## Left out

- **SSL.** The SSL configurer, the analysis-configuration fluent interfaces, logging and Spring wiring: they hold no behaviour to state.
- **Data store and ID loader.** The queries, the persistence of sessions and the paging inside `SortingBasedEntityIdsLoader` are not part of this model. The store is a map, and the loader is "the next page after the cursor" over a sorted sequence.
- **Locks and threads.** Lock timeouts, real threads and any concurrency between schedulers. A lock is obtained or not, and every action runs alone.
- **Index writes.** The writes to Elasticsearch in `processNextBatch`. The items handed over are recorded in `written`, and a write never fails.
- **Native configuration from text.** `withNativeConfiguration(String)` parses JSON through Jackson, a foreign library. Only the `ObjectNode` overload is modelled.
- **Property arrays.** `includeProperties` and `excludeProperties` keep the caller's array. The model keeps its contents as a sequence, so later writes into that array are not followed.
- **Ordering values.** Only non-negative integers are modelled, with their decimal `toString()`. Other ordering types (UUIDs, strings, dates) are not.
- **Batch sizes.** They are natural numbers, so negative batch sizes are not modelled.
- **Explicit order.** It is an unbounded integer, so the 32-bit range of `int` is not modelled.
- **Queue items.** An entity instance and an `Id<?>` are both an `EntityRef`. `EnqueueIndex`, `EnqueueIndexCollection`, `EnqueueDelete` and `EnqueueDeleteCollection` therefore model both the instance and the by-id overloads.
- **Non-indexed entities.** The interface does not say whether the implementation filters them out of the reference variants of `enqueueIndex*` and `enqueueDelete*` (single instance, collection, by id). The model appends every reference given. For `enqueueIndexAll(entityName)` the model makes the opposite choice: a non-indexed entity gets no items and the call returns 0.
- **Repeated processing.** A series of calls (`Queue.Run`, `Queue.Exhaust`) is stated on the session values alone. Nothing else changes the session between the calls, and there are no other sessions or lock failures. The class-level methods are proved for one call each.
- `QueueManager.IndexingQueueManager.ProcessSessionInternal`: with batch size 0 an empty page keeps the session unchanged. The interface does not say what then happens to the cursor.
- `QueueManager.IndexingQueueManager.InitAsyncEnqueueIndexAllEntities`: the order in which entities are visited is chosen arbitrarily. Whether the implementation stops at the first failing entity is not documented; the model stops and returns that error.
- **Type names.** `getFieldMappingStrategyClass`, `getFieldMappingStrategy`, `getExplicitFieldConfiguration` and `getExplicitPropertyValueExtractor` are read through the element's `fields`. Strategy classes, strategies, extractors and JSON objects are plain values standing for Java class names.
