/**
 * EnqueueingSessionManager: the lifecycle of enqueueing sessions. Every
 * operation goes through ExecuteManagementAction, which refuses entities that
 * are not indexed, takes the entity's lock with a bounded wait, runs the action
 * and releases the lock again.
 */
module SessionManager {
  import opened Wrappers
  import opened Sessions

  /**
   * IndexingLocker, restricted to enqueueing-session locks. `held` names the
   * locks somebody holds at the moment.
   */
  class Locker {
    var held: set<string>

    constructor ()
      ensures held == {}
    {
      held := {};
    }

    /**
     * A try-lock with a timeout: it fails when the lock is already held;
     * otherwise whether it is obtained before the timeout is not determined.
     */
    method TryLock(name: string) returns (acquired: bool)
      modifies this
      ensures name in old(held) ==> !acquired
      ensures held == if acquired then old(held) + {name} else old(held)
    {
      if name in held {
        acquired := false;
      } else {
        acquired :| true;
        if acquired {
          held := held + {name};
        }
      }
    }

    method Unlock(name: string)
      modifies this
      ensures held == old(held) - {name}
    {
      held := held - {name};
    }
  }

  class EnqueueingSessionManager {
    /** The entities configured for direct indexing. */
    const indexed: set<string>
    /** Entity metadata: the descriptor `metadata.getClass(name)` gives. */
    const metadata: map<string, EntityDescriptor>
    const locker: Locker
    /** The session rows of the data store. */
    var sessions: Store
    /** The time stamp the store puts on the next session it creates. */
    var clock: nat

    ghost predicate Valid()
      reads this
    {
      && indexed <= metadata.Keys
      && (forall k :: k in metadata ==> metadata[k].name == k)
      && WellFormed(sessions, indexed, clock)
    }

    constructor (indexed: set<string>, metadata: map<string, EntityDescriptor>, locker: Locker)
      requires indexed <= metadata.Keys
      requires forall k :: k in metadata ==> metadata[k].name == k
      ensures Valid()
      ensures this.indexed == indexed && this.metadata == metadata && this.locker == locker
      ensures sessions == map[]
    {
      this.indexed := indexed;
      this.metadata := metadata;
      this.locker := locker;
      sessions := map[];
      clock := 0;
    }

    /**
     * The outcome of a management action on an indexed entity: either the
     * lock was not obtained, so false is returned and the store is unchanged,
     * or the action ran on the store as it was.
     */
    ghost predicate ActionDone(name: string, action: ManagementAction, store0: Store, clock0: nat,
                               store1: Store, r: Result<bool, Error>)
      reads this
      requires name in indexed && indexed <= metadata.Keys
    {
      || (r == Ok(false) && store1 == store0)
      || (var o := ApplyAction(store0, name, action, metadata[name], clock0);
          if o.Ok? then r == Ok(o.value.ok) && store1 == o.value.store
          else r == Err(o.error) && store1 == store0)
    }

    /** What every management method promises, given the state before the call. */
    ghost predicate ManagementPost(name: string, action: ManagementAction, store0: Store, clock0: nat,
                                   held0: set<string>, r: Result<bool, Error>)
      reads this, locker
    {
      && Valid()
      && locker.held == held0
      && (name !in indexed ==> r == Err(NotIndexed(name)) && sessions == store0)
      && (name in indexed && name in held0 ==> r == Ok(false) && sessions == store0)
      && (name in indexed ==> ActionDone(name, action, store0, clock0, sessions, r))
    }

    method ExecuteManagementAction(name: string, action: ManagementAction) returns (r: Result<bool, Error>)
      requires Valid()
      modifies this, locker
      ensures ManagementPost(name, action, old(sessions), old(clock), old(locker.held), r)
    {
      if name !in indexed {
        return Err(NotIndexed(name));
      }
      var locked := locker.TryLock(name);
      if !locked {
        return Ok(false);
      }
      // try { action } finally { unlock }
      r := RunAction(name, action);
      locker.Unlock(name);
    }

    /**
     * The action itself, run by a caller that holds the entity's lock: its
     * transition on the store, or its exception with the store unchanged.
     */
    method RunAction(name: string, action: ManagementAction) returns (r: Result<bool, Error>)
      requires Valid() && name in indexed
      modifies this
      ensures Valid()
      ensures var o := ApplyAction(old(sessions), name, action, metadata[name], old(clock));
        if o.Ok? then r == Ok(o.value.ok) && sessions == o.value.store
        else r == Err(o.error) && sessions == old(sessions)
    {
      var o := ApplyAction(sessions, name, action, metadata[name], clock);
      if o.Ok? {
        ApplyActionKeepsWellFormed(sessions, indexed, clock, name, action, metadata[name]);
        sessions, clock := o.value.store, clock + 1;
        r := Ok(o.value.ok);
      } else {
        r := Err(o.error);
      }
    }

    /** initSession(entityName): the same as initSession(entityName, false). */
    method InitSession(name: string) returns (r: Result<bool, Error>)
      requires Valid()
      modifies this, locker
      ensures ManagementPost(name, InitAction(false), old(sessions), old(clock), old(locker.held), r)
    {
      r := InitSessionWithRestart(name, false);
    }

    method InitSessionWithRestart(name: string, restart: bool) returns (r: Result<bool, Error>)
      requires Valid()
      modifies this, locker
      ensures ManagementPost(name, InitAction(restart), old(sessions), old(clock), old(locker.held), r)
    {
      r := ExecuteManagementAction(name, InitAction(restart));
    }

    method SuspendSession(name: string) returns (r: Result<bool, Error>)
      requires Valid()
      modifies this, locker
      ensures ManagementPost(name, SuspendAction, old(sessions), old(clock), old(locker.held), r)
    {
      r := ExecuteManagementAction(name, SuspendAction);
    }

    method ResumeSession(name: string) returns (r: Result<bool, Error>)
      requires Valid()
      modifies this, locker
      ensures ManagementPost(name, ResumeAction, old(sessions), old(clock), old(locker.held), r)
    {
      r := ExecuteManagementAction(name, ResumeAction);
    }

    method StopSession(name: string) returns (r: Result<bool, Error>)
      requires Valid()
      modifies this, locker
      ensures ManagementPost(name, StopAction, old(sessions), old(clock), old(locker.held), r)
    {
      r := ExecuteManagementAction(name, StopAction);
    }

    /** removeSession(session): deletes the row of the session's entity. */
    method RemoveSession(session: Session) returns (r: Result<bool, Error>)
      requires Valid()
      modifies this, locker
      ensures ManagementPost(session.entityName, RemoveAction, old(sessions), old(clock), old(locker.held), r)
    {
      r := ExecuteManagementAction(session.entityName, RemoveAction);
    }

    /**
     * updateOrderingValue(session, value): stores the serialised value (or no
     * cursor for null) in the entity's current session. The Java method is
     * void; `r` is the boolean it discards, or its exception.
     */
    method UpdateOrderingValue(session: Session, lastOrderingValue: Option<nat>) returns (r: Result<bool, Error>)
      requires Valid()
      modifies this, locker
      ensures ManagementPost(session.entityName, UpdateOrderingAction(lastOrderingValue),
                             old(sessions), old(clock), old(locker.held), r)
    {
      r := ExecuteManagementAction(session.entityName, UpdateOrderingAction(lastOrderingValue));
    }

    /** getSession: the entity's session, if any; an error for an entity that is not indexed. */
    function GetSession(name: string): (r: Result<Option<Session>, Error>)
      reads this
      ensures r.Err? <==> name !in indexed
      ensures r.Err? ==> r.error == NotIndexed(name)
      ensures r.Ok? ==> (r.value.Some? <==> name in sessions)
      ensures r.Ok? && r.value.Some? ==> r.value.value == sessions[name]
    {
      if name !in indexed then Err(NotIndexed(name))
      else if name in sessions then Ok(Some(sessions[name]))
      else Ok(None)
    }

    /** getNextSession: the session created first, of whatever action; none when the store is empty. */
    method GetNextSession() returns (r: Option<Session>)
      requires Valid()
      ensures r.None? <==> sessions == map[]
      ensures r.Some? ==> r.value.entityName in sessions && sessions[r.value.entityName] == r.value
      ensures r.Some? ==> IsEarliest(sessions, r.value.entityName)
    {
      if sessions == map[] {
        return None;
      }
      EarliestExists(sessions);
      var k :| IsEarliest(sessions, k);
      r := Some(sessions[k]);
    }
  }
}
