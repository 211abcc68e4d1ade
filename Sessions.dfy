/**
 * The persisted enqueueing-session records and the pure transitions that
 * EnqueueingSessionManager applies to them while it holds the entity's lock.
 * The store maps an entity name to its one session, so "at most one session
 * per entity" holds by construction.
 */
module Sessions {
  import opened Wrappers
  import Decimal

  /** EnqueueingSessionAction: SKIP is a suspended session, STOP one marked for removal. */
  datatype Action = Execute | Skip | Stop

  datatype Session = Session(
    entityName: string,
    action: Action,
    orderingProperty: string,
    lastProcessedValue: Option<string>,
    createdDate: nat)

  /** What the metadata says about an entity, as far as ordering-key resolution needs it. */
  datatype EntityDescriptor = EntityDescriptor(
    name: string,
    hasCompositePrimaryKey: bool,
    hasUuid: bool,
    uuidPropertyName: Option<string>,
    primaryKeyPropertyName: Option<string>)

  /** The IllegalArgumentExceptions of the session manager. */
  datatype Error =
    | NotIndexed(entityName: string)
    | UuidPropertyMissing
    | NoPrimaryKey(entityName: string)

  type Store = map<string, Session>

  /** What a management action returns together with the store it leaves. */
  datatype Outcome = Outcome(ok: bool, store: Store)

  /** The management actions that executeManagementAction runs under the lock. */
  datatype ManagementAction =
    | InitAction(restart: bool)
    | SuspendAction
    | ResumeAction
    | StopAction
    | RemoveAction
    | UpdateOrderingAction(lastOrderingValue: Option<nat>)

  /**
   * An entity with a composite primary key and a UUID is scanned by its UUID;
   * otherwise by its primary key. Missing names are configuration errors.
   */
  function ResolveOrderingProperty(d: EntityDescriptor): (r: Result<string, Error>)
    ensures d.hasCompositePrimaryKey && d.hasUuid ==>
      (r.Ok? <==> d.uuidPropertyName.Some?) &&
      (r.Ok? ==> r.value == d.uuidPropertyName.value) &&
      (r.Err? ==> r.error == UuidPropertyMissing)
    ensures !(d.hasCompositePrimaryKey && d.hasUuid) ==>
      (r.Ok? <==> d.primaryKeyPropertyName.Some?) &&
      (r.Ok? ==> r.value == d.primaryKeyPropertyName.value) &&
      (r.Err? ==> r.error == NoPrimaryKey(d.name))
  {
    if d.hasCompositePrimaryKey && d.hasUuid then
      match d.uuidPropertyName
      case None => Err(UuidPropertyMissing)
      case Some(p) => Ok(p)
    else
      match d.primaryKeyPropertyName
      case None => Err(NoPrimaryKey(d.name))
      case Some(p) => Ok(p)
  }

  /** Whether init (re)writes the session: none exists, a restart is asked for, or it was stopped. */
  predicate InitRewrites(store: Store, name: string, restart: bool) {
    name !in store || restart || store[name].action == Stop
  }

  /** The serialised cursor that updateOrderingValue stores for an ordering value. */
  function CursorOf(v: Option<nat>): (c: Option<string>)
    ensures c.None? <==> v.None?
    ensures c.Some? ==> Decimal.IsDecimal(c.value) && Decimal.ParseDecimal(c.value) == v.value
  {
    match v
    case None => None
    case Some(n) => Decimal.ParseToDecimal(n); Some(Decimal.ToDecimal(n))
  }

  /**
   * initSession: an existing session that is not stopped is left alone unless
   * a restart is asked for; otherwise the record (the existing one, so its
   * creation date stays) is reset to EXECUTE with the resolved ordering
   * property and no cursor. Resolution happens only when the record is written.
   */
  function InitTransition(store: Store, name: string, restart: bool, d: EntityDescriptor, now: nat)
    : (r: Result<Outcome, Error>)
    ensures !InitRewrites(store, name, restart) ==> r == Ok(Outcome(true, store))
    ensures r.Err? <==> InitRewrites(store, name, restart) && ResolveOrderingProperty(d).Err?
    ensures r.Err? ==> r.error == ResolveOrderingProperty(d).error
    ensures r.Ok? ==> r.value.ok
    ensures r.Ok? ==> r.value.store.Keys == store.Keys + {name}
    ensures r.Ok? ==> forall k :: k in store && k != name ==> r.value.store[k] == store[k]
    ensures r.Ok? && InitRewrites(store, name, restart) ==>
      r.value.store[name] == Session(name, Execute, ResolveOrderingProperty(d).value, None,
                                     if name in store then store[name].createdDate else now)
  {
    if name in store && !(restart || store[name].action == Stop) then
      Ok(Outcome(true, store))
    else
      match ResolveOrderingProperty(d)
      case Err(e) => Err(e)
      case Ok(property) =>
        var created := if name in store then store[name].createdDate else now;
        Ok(Outcome(true, store[name := Session(name, Execute, property, None, created)]))
  }

  /** suspendSession: EXECUTE becomes SKIP; SKIP stays; STOP or no session is refused. */
  function SuspendTransition(store: Store, name: string): (o: Outcome)
    ensures o.ok <==> name in store && store[name].action != Stop
    ensures o.store.Keys == store.Keys
    ensures forall k :: k in store && k != name ==> o.store[k] == store[k]
    ensures name in store ==>
      o.store[name] == if store[name].action == Execute then store[name].(action := Skip) else store[name]
  {
    if name in store then
      match store[name].action
      case Skip => Outcome(true, store)
      case Execute => Outcome(true, store[name := store[name].(action := Skip)])
      case Stop => Outcome(false, store)
    else
      Outcome(false, store)
  }

  /** resumeSession: SKIP becomes EXECUTE; EXECUTE stays; STOP or no session is refused. */
  function ResumeTransition(store: Store, name: string): (o: Outcome)
    ensures o.ok <==> name in store && store[name].action != Stop
    ensures o.store.Keys == store.Keys
    ensures forall k :: k in store && k != name ==> o.store[k] == store[k]
    ensures name in store ==>
      o.store[name] == if store[name].action == Skip then store[name].(action := Execute) else store[name]
  {
    if name in store then
      match store[name].action
      case Execute => Outcome(true, store)
      case Skip => Outcome(true, store[name := store[name].(action := Execute)])
      case Stop => Outcome(false, store)
    else
      Outcome(false, store)
  }

  /** stopSession: any existing session becomes STOP; no session is refused. */
  function StopTransition(store: Store, name: string): (o: Outcome)
    ensures o.ok <==> name in store
    ensures o.store.Keys == store.Keys
    ensures forall k :: k in store && k != name ==> o.store[k] == store[k]
    ensures name in store ==> o.store[name] == store[name].(action := Stop)
  {
    if name in store then
      if store[name].action != Stop then Outcome(true, store[name := store[name].(action := Stop)])
      else Outcome(true, store)
    else
      Outcome(false, store)
  }

  /** removeSession: the entity's session row is deleted. */
  function RemoveTransition(store: Store, name: string): (o: Outcome)
    ensures o.ok
    ensures name !in o.store && o.store.Keys == store.Keys - {name}
    ensures forall k :: k in o.store ==> o.store[k] == store[k]
  {
    Outcome(true, store - {name})
  }

  /** updateOrderingValue: only the cursor of an existing session changes. */
  function UpdateOrderingTransition(store: Store, name: string, v: Option<nat>): (o: Outcome)
    ensures o.ok <==> name in store
    ensures o.store.Keys == store.Keys
    ensures forall k :: k in store && k != name ==> o.store[k] == store[k]
    ensures name in store ==> o.store[name] == store[name].(lastProcessedValue := CursorOf(v))
  {
    if name !in store then
      Outcome(false, store)
    else
      Outcome(true, store[name := store[name].(lastProcessedValue := CursorOf(v))])
  }

  /** The body of the management action that runs while the lock is held. */
  function ApplyAction(store: Store, name: string, action: ManagementAction, d: EntityDescriptor, now: nat)
    : (r: Result<Outcome, Error>)
    ensures r.Err? ==> action.InitAction?
  {
    match action
    case InitAction(restart) => InitTransition(store, name, restart, d, now)
    case SuspendAction => Ok(SuspendTransition(store, name))
    case ResumeAction => Ok(ResumeTransition(store, name))
    case StopAction => Ok(StopTransition(store, name))
    case RemoveAction => Ok(RemoveTransition(store, name))
    case UpdateOrderingAction(v) => Ok(UpdateOrderingTransition(store, name, v))
  }

  /**
   * The store invariant: every session sits under its own entity name, belongs
   * to an indexed entity, was created before `clock`, and has a cursor that is
   * either absent or a serialised ordering value.
   */
  ghost predicate WellFormed(store: Store, indexed: set<string>, clock: nat) {
    forall k :: k in store ==>
      && store[k].entityName == k
      && k in indexed
      && store[k].createdDate < clock
      && (store[k].lastProcessedValue.Some? ==> Decimal.IsDecimal(store[k].lastProcessedValue.value))
  }

  /** Every management action on an indexed entity keeps the store invariant. */
  lemma ApplyActionKeepsWellFormed(store: Store, indexed: set<string>, clock: nat, name: string,
                                   action: ManagementAction, d: EntityDescriptor)
    requires WellFormed(store, indexed, clock) && name in indexed
    requires ApplyAction(store, name, action, d, clock).Ok?
    ensures WellFormed(ApplyAction(store, name, action, d, clock).value.store, indexed, clock + 1)
  {
  }

  /** Session key `k` has the earliest creation date of the store. */
  predicate IsEarliest(store: Store, k: string) {
    k in store && forall k' :: k' in store ==> store[k].createdDate <= store[k'].createdDate
  }

  /** A non-empty store always has a session created first (getNextSession's ORDER BY createdDate). */
  lemma {:induction false} EarliestExists(store: Store)
    requires store != map[]
    ensures exists k :: IsEarliest(store, k)
    decreases |store|
  {
    var k :| k in store;
    var rest := store - {k};
    assert rest.Keys == store.Keys - {k};
    if rest == map[] {
      assert forall k' :: k' in store ==> k' == k || k' in rest.Keys;
      assert IsEarliest(store, k);
    } else {
      assert |rest| < |store|;
      EarliestExists(rest);
      var j :| IsEarliest(rest, j);
      assert forall k' :: k' in store ==> k' == k || k' in rest;
      if store[k].createdDate <= store[j].createdDate {
        assert IsEarliest(store, k);
      } else {
        assert IsEarliest(store, j);
      }
    }
  }

  // Properties of the transition table that relate several calls.

  /** A fresh init yields exactly one new EXECUTE session with no cursor. */
  lemma InitCreatesOneSession(store: Store, name: string, restart: bool, d: EntityDescriptor, now: nat)
    requires name !in store && ResolveOrderingProperty(d).Ok?
    ensures var r := InitTransition(store, name, restart, d, now);
      && r == Ok(Outcome(true, r.value.store))
      && |r.value.store| == |store| + 1
      && r.value.store[name] == Session(name, Execute, ResolveOrderingProperty(d).value, None, now)
  {
    var r := InitTransition(store, name, restart, d, now);
    assert r.value.store.Keys == store.Keys + {name};
    assert |r.value.store.Keys| == |store.Keys| + 1;
  }

  /** A restart (or init of a stopped session) reuses the record: one session, reset, same creation date. */
  lemma RestartReusesRecord(store: Store, name: string, restart: bool, d: EntityDescriptor, now: nat)
    requires name in store && (restart || store[name].action == Stop)
    requires ResolveOrderingProperty(d).Ok?
    ensures var r := InitTransition(store, name, restart, d, now);
      && r.Ok? && r.value.ok
      && r.value.store.Keys == store.Keys
      && r.value.store[name].action == Execute
      && r.value.store[name].lastProcessedValue == None
      && r.value.store[name].createdDate == store[name].createdDate
  {
  }

  /** A second init without restart changes nothing. */
  lemma InitIdempotent(store: Store, name: string, d: EntityDescriptor, now: nat, later: nat)
    requires InitTransition(store, name, false, d, now).Ok?
    ensures var s1 := InitTransition(store, name, false, d, now).value.store;
      InitTransition(s1, name, false, d, later) == Ok(Outcome(true, s1))
  {
  }

  /** Suspending and then resuming an executing session restores it, cursor included. */
  lemma SuspendResumeRestores(store: Store, name: string)
    requires name in store && store[name].action == Execute
    ensures SuspendTransition(store, name).ok
    ensures ResumeTransition(SuspendTransition(store, name).store, name) == Outcome(true, store)
  {
    var s1 := SuspendTransition(store, name).store;
    var s2 := ResumeTransition(s1, name).store;
    assert s2 == store by {
      assert s2.Keys == store.Keys;
      forall k | k in store ensures s2[k] == store[k] {}
    }
  }

  /** Suspend, resume and stop are idempotent: a second call returns what the first did and changes nothing. */
  lemma TransitionsIdempotent(store: Store, name: string)
    ensures var o := SuspendTransition(store, name); SuspendTransition(o.store, name) == Outcome(o.ok, o.store)
    ensures var o := ResumeTransition(store, name); ResumeTransition(o.store, name) == Outcome(o.ok, o.store)
    ensures var o := StopTransition(store, name); StopTransition(o.store, name) == Outcome(o.ok, o.store)
  {
  }

  /** updateOrderingValue of a present value sets a cursor that reads back as that value. */
  lemma UpdateOrderingRoundTrip(store: Store, name: string, v: nat)
    requires name in store
    ensures var s := UpdateOrderingTransition(store, name, Some(v)).store[name].lastProcessedValue;
      s.Some? && Decimal.IsDecimal(s.value) && Decimal.ParseDecimal(s.value) == v
  {
  }
}
