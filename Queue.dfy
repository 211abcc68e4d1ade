/**
 * The indexing queue and the paged scan of an enqueueing session, as values:
 * queue items, the ordered records an ID loader pages through, and one
 * processing step of a session.
 */
module Queue {
  import opened Wrappers
  import opened Sessions
  import Decimal

  /** IndexingOperation: store the document in the index, or delete it. */
  datatype Operation = Index | Delete

  /** An entity instance or an Id<?>: the entity it belongs to and its serialised id. */
  datatype EntityRef = EntityRef(entityName: string, id: string)

  /** A queue item: which document to store or delete. */
  datatype QueueItem = QueueItem(entityName: string, entityId: string, operation: Operation)

  /** One queue item with operation `op` per reference, in the order given. */
  function ItemsFor(refs: seq<EntityRef>, op: Operation): (q: seq<QueueItem>)
    ensures |q| == |refs|
    ensures forall i :: 0 <= i < |refs| ==> q[i] == QueueItem(refs[i].entityName, refs[i].id, op)
  {
    seq(|refs|, i requires 0 <= i < |refs| => QueueItem(refs[i].entityName, refs[i].id, op))
  }

  /** How many items of the queue belong to entity `e`. */
  function CountFor(q: seq<QueueItem>, e: string): nat
  {
    if q == [] then 0 else (if q[0].entityName == e then 1 else 0) + CountFor(q[1..], e)
  }

  /** How many items of the queue are `op` items of entity `e` (what the tests count). */
  function CountOp(q: seq<QueueItem>, e: string, op: Operation): nat
  {
    if q == [] then 0
    else (if q[0].entityName == e && q[0].operation == op then 1 else 0) + CountOp(q[1..], e, op)
  }

  lemma {:induction false} CountForAppend(a: seq<QueueItem>, b: seq<QueueItem>, e: string)
    ensures CountFor(a + b, e) == CountFor(a, e) + CountFor(b, e)
    decreases |a|
  {
    if a != [] {
      assert (a + b)[1..] == a[1..] + b;
      CountForAppend(a[1..], b, e);
    } else {
      assert a + b == b;
    }
  }

  lemma {:induction false} CountOpAppend(a: seq<QueueItem>, b: seq<QueueItem>, e: string, op: Operation)
    ensures CountOp(a + b, e, op) == CountOp(a, e, op) + CountOp(b, e, op)
    decreases |a|
  {
    if a != [] {
      assert (a + b)[1..] == a[1..] + b;
      CountOpAppend(a[1..], b, e, op);
    } else {
      assert a + b == b;
    }
  }

  /**
   * The queue without the items of entity `e` (emptyQueue(entityName)): every
   * other item is kept, in order, with its multiplicity, and exactly the items
   * of `e` are gone.
   */
  function WithoutEntity(q: seq<QueueItem>, e: string): (r: seq<QueueItem>)
    ensures CountFor(r, e) == 0
    ensures |r| + CountFor(q, e) == |q|
    ensures forall x: QueueItem :: x.entityName != e ==> multiset(r)[x] == multiset(q)[x]
    ensures forall x: QueueItem :: x.entityName == e ==> multiset(r)[x] == 0
  {
    if q == [] then []
    else
      var rest := WithoutEntity(q[1..], e);
      assert q == [q[0]] + q[1..];
      if q[0].entityName == e then rest
      else
        CountForAppend([q[0]], rest, e);
        [q[0]] + rest
  }

  /** emptyQueue(e) after enqueueing `refs` of `e` removes what was there for `e` plus `|refs|`. */
  lemma EmptyAfterEnqueue(q: seq<QueueItem>, refs: seq<EntityRef>, op: Operation, e: string)
    requires forall i :: 0 <= i < |refs| ==> refs[i].entityName == e
    ensures CountFor(q + ItemsFor(refs, op), e) == CountFor(q, e) + |refs|
    ensures CountFor(WithoutEntity(q + ItemsFor(refs, op), e), e) == 0
  {
    CountForAppend(q, ItemsFor(refs, op), e);
    AllOfEntity(ItemsFor(refs, op), e);
  }

  lemma {:induction false} AllOfEntity(q: seq<QueueItem>, e: string)
    requires forall i :: 0 <= i < |q| ==> q[i].entityName == e
    ensures CountFor(q, e) == |q|
    decreases |q|
  {
    if q != [] {
      AllOfEntity(q[1..], e);
    }
  }

  // ---------------------------------------------------------------------
  // The ordered ID loader and one processing step of an enqueueing session.

  /** A record of the scanned entity: its id and the value of its ordering property. */
  datatype Record = Record(id: string, orderingValue: nat)

  /** The records as the ID loader sees them: sorted by a key that orders them totally. */
  predicate StrictlyAscending(rs: seq<Record>) {
    forall i, j :: 0 <= i < j < |rs| ==> OrderingAt(rs, i) < OrderingAt(rs, j)
  }

  /** The ordering value of record i; sortedness is stated through it so that it is used only where asked for. */
  function OrderingAt(rs: seq<Record>, i: nat): nat
    requires i < |rs|
  {
    rs[i].orderingValue
  }

  /** A suffix of a sorted scan is sorted. */
  lemma AscendingTail(rs: seq<Record>)
    requires StrictlyAscending(rs) && rs != []
    ensures StrictlyAscending(rs[1..])
  {
    forall i, j | 0 <= i < j < |rs[1..]|
      ensures OrderingAt(rs[1..], i) < OrderingAt(rs[1..], j)
    {
      assert OrderingAt(rs, i + 1) < OrderingAt(rs, j + 1);
    }
  }

  /** The records strictly after the cursor, in order; all of them when there is no cursor. */
  function After(rs: seq<Record>, cursor: Option<nat>): (r: seq<Record>)
    ensures |r| <= |rs|
    ensures cursor.None? ==> r == rs
  {
    if cursor.None? || rs == [] then rs
    else if rs[0].orderingValue > cursor.value then [rs[0]] + After(rs[1..], cursor)
    else After(rs[1..], cursor)
  }

  /** Every record after the cursor is a record of the scan whose ordering value is above the cursor. */
  lemma {:induction false} AfterAboveCursor(rs: seq<Record>, cursor: Option<nat>, x: Record)
    requires x in After(rs, cursor)
    ensures x in rs
    ensures cursor.Some? ==> x.orderingValue > cursor.value
    decreases |rs|
  {
    if cursor.Some? && rs != [] {
      assert rs == [rs[0]] + rs[1..];
      if x != rs[0] || rs[0].orderingValue <= cursor.value {
        AfterAboveCursor(rs[1..], cursor, x);
      }
    }
  }

  /** Conversely, every record of the scan above the cursor (any record without one) is after it. */
  lemma {:induction false} AboveCursorInAfter(rs: seq<Record>, cursor: Option<nat>, x: Record)
    requires x in rs
    requires cursor.Some? ==> x.orderingValue > cursor.value
    ensures x in After(rs, cursor)
    decreases |rs|
  {
    if cursor.Some? && x != rs[0] {
      assert x in rs[1..];
      AboveCursorInAfter(rs[1..], cursor, x);
    }
  }

  /** With the ordering value of record k as cursor, a sorted scan resumes right after record k. */
  lemma {:induction false} AfterRecord(rs: seq<Record>, k: nat)
    requires StrictlyAscending(rs) && k < |rs|
    ensures After(rs, Some(rs[k].orderingValue)) == rs[k + 1..]
    decreases |rs|
  {
    var c := Some(rs[k].orderingValue);
    if k == 0 {
      forall i | 0 <= i < |rs[1..]|
        ensures rs[1..][i].orderingValue > rs[0].orderingValue
      {
        assert OrderingAt(rs, 0) < OrderingAt(rs, i + 1);
      }
      AllAbove(rs[1..], rs[0].orderingValue);
    } else {
      assert OrderingAt(rs, 0) < OrderingAt(rs, k);
      AscendingTail(rs);
      AfterRecord(rs[1..], k - 1);
    }
  }

  lemma {:induction false} AllAbove(rs: seq<Record>, c: nat)
    requires forall i :: 0 <= i < |rs| ==> rs[i].orderingValue > c
    ensures After(rs, Some(c)) == rs
    decreases |rs|
  {
    if rs != [] {
      AllAbove(rs[1..], c);
    }
  }

  /** The next page the ID loader returns: at most `size` records after the cursor. */
  function Page(rs: seq<Record>, cursor: Option<nat>, size: nat): (page: seq<Record>)
    ensures |page| <= size
    ensures page <= After(rs, cursor)
    ensures |page| < size ==> page == After(rs, cursor)
  {
    var rest := After(rs, cursor);
    if |rest| <= size then rest else rest[..size]
  }

  /** The cursor as the loader reads it back from the session. */
  function CursorValue(c: Option<string>): Option<nat>
    requires c.Some? ==> Decimal.IsDecimal(c.value)
  {
    match c
    case None => None
    case Some(s) => Some(Decimal.ParseDecimal(s))
  }

  predicate CursorReadable(s: Session) {
    s.lastProcessedValue.Some? ==> Decimal.IsDecimal(s.lastProcessedValue.value)
  }

  /** INDEX items of entity `e` for the given records, in order. */
  function RecordItems(e: string, rs: seq<Record>): (q: seq<QueueItem>)
    ensures |q| == |rs|
    ensures forall i :: 0 <= i < |rs| ==> q[i] == QueueItem(e, rs[i].id, Index)
  {
    seq(|rs|, i requires 0 <= i < |rs| => QueueItem(e, rs[i].id, Index))
  }

  /** Every item made from records is an INDEX item of the entity for the id of one of those records. */
  lemma RecordItemsOfRecords(e: string, rs: seq<Record>)
    ensures forall x :: x in RecordItems(e, rs) ==>
      x.operation == Index && x.entityName == e && exists r :: r in rs && r.id == x.entityId
  {
    forall x | x in RecordItems(e, rs)
      ensures exists r :: r in rs && r.id == x.entityId
    {
      var i :| 0 <= i < |rs| && RecordItems(e, rs)[i] == x;
      assert rs[i] in rs;
    }
  }

  /** Every record gets its INDEX item. */
  lemma RecordItemsCoverRecords(e: string, rs: seq<Record>)
    ensures forall r :: r in rs ==> QueueItem(e, r.id, Index) in RecordItems(e, rs)
  {
    forall r | r in rs
      ensures QueueItem(e, r.id, Index) in RecordItems(e, rs)
    {
      var i :| 0 <= i < |rs| && rs[i] == r;
      assert RecordItems(e, rs)[i] == QueueItem(e, r.id, Index);
    }
  }

  /** The items of a page of entity `e'` count only as INDEX items of `e'`, one per record. */
  lemma {:induction false} CountOpRecordItems(e': string, rs: seq<Record>, e: string, op: Operation)
    ensures CountOp(RecordItems(e', rs), e, op) == if e == e' && op == Index then |rs| else 0
    decreases |rs|
  {
    if rs != [] {
      assert RecordItems(e', rs)[1..] == RecordItems(e', rs[1..]);
      CountOpRecordItems(e', rs[1..], e, op);
    }
  }

  /** What one processing call does to a session: how many items, which items, and the session afterwards (none: removed). */
  datatype SessionStep = SessionStep(count: nat, next: Option<Session>, items: seq<QueueItem>)

  /** Where a call leaves the cursor of an executing session: removed, unchanged, or moved to an ordering value. */
  datatype CursorMove = Removed | Kept | MovedTo(value: nat)

  /**
   * One call on an executing session of entity `e` whose cursor reads back as
   * `cursor`: the INDEX items of the next page, and the session is removed
   * after a short page, keeps its cursor after an empty full page (batch size
   * 0) and otherwise moves to the last ordering value of the page.
   */
  function ExecuteStep(e: string, rs: seq<Record>, cursor: Option<nat>, batchSize: nat): (r: (seq<QueueItem>, CursorMove))
    ensures |r.0| <= batchSize
    ensures r.1.Removed? <==> |r.0| < batchSize
    ensures r.1.Kept? <==> batchSize == 0
  {
    var page := Page(rs, cursor, batchSize);
    if |page| < batchSize then (RecordItems(e, page), Removed)
    else if |page| == 0 then ([], Kept)
    else (RecordItems(e, page), MovedTo(page[|page| - 1].orderingValue))
  }

  /** The cursor only moves forward, to the ordering value of a record after it. */
  lemma ExecuteStepAdvances(e: string, rs: seq<Record>, cursor: Option<nat>, batchSize: nat)
    ensures var move := ExecuteStep(e, rs, cursor, batchSize).1;
      && (move.MovedTo? ==> exists x :: x in After(rs, cursor) && x.orderingValue == move.value)
      && (move.MovedTo? && cursor.Some? ==> move.value > cursor.value)
  {
    var page := Page(rs, cursor, batchSize);
    if batchSize <= |page| && |page| > 0 {
      var last := page[|page| - 1];
      assert last == After(rs, cursor)[|page| - 1];
      AfterAboveCursor(rs, cursor, last);
    }
  }

  /**
   * processEnqueueingSession for one session: SKIP enqueues nothing and keeps
   * the session; STOP enqueues nothing and removes it; EXECUTE enqueues an
   * INDEX item per record of the next page, removes the session when the page
   * is short (the scan is exhausted) and otherwise stores the last ordering
   * value of the page as the session's cursor.
   */
  function ProcessSession(s: Session, rs: seq<Record>, batchSize: nat): (step: SessionStep)
    requires CursorReadable(s)
    ensures step.count == |step.items| <= batchSize
    ensures s.action != Execute ==> step.count == 0
    ensures s.action == Skip ==> step.next == Some(s)
    ensures s.action == Stop ==> step.next == None
    ensures s.action == Execute ==>
      step.items == RecordItems(s.entityName, Page(rs, CursorValue(s.lastProcessedValue), batchSize))
    ensures s.action == Execute ==> (step.next.None? <==> step.count < batchSize)
    ensures step.next.Some? ==>
      && CursorReadable(step.next.value)
      && step.next.value == s.(lastProcessedValue := step.next.value.lastProcessedValue)
    ensures s.action == Execute && 0 < step.count == batchSize ==>
      step.next == Some(s.(lastProcessedValue := CursorOf(Some(
        Page(rs, CursorValue(s.lastProcessedValue), batchSize)[step.count - 1].orderingValue))))
  {
    match s.action
    case Skip => SessionStep(0, Some(s), [])
    case Stop => SessionStep(0, None, [])
    case Execute =>
      var (items, move) := ExecuteStep(s.entityName, rs, CursorValue(s.lastProcessedValue), batchSize);
      match move
      case Removed => SessionStep(|items|, None, items)
      case Kept => SessionStep(0, Some(s), [])
      case MovedTo(v) => SessionStep(|items|, Some(s.(lastProcessedValue := CursorOf(Some(v)))), items)
  }

  /** The store after a processing step has saved or removed the session of `e`. */
  function StoreAfter(store: Store, e: string, next: Option<Session>): Store {
    if next.None? then store - {e} else store[e := next.value]
  }

  /**
   * A call on an executing session follows its cursor: it enqueues what
   * ExecuteStep gives for the cursor read back from the session, and the
   * session it keeps is again executing, for the same entity, with a cursor
   * that reads back as the one ExecuteStep moved to.
   */
  lemma {:induction false} ProcessSessionFollowsCursor(s: Session, rs: seq<Record>, batchSize: nat)
    requires s.action == Execute && CursorReadable(s)
    ensures var (items, move) := ExecuteStep(s.entityName, rs, CursorValue(s.lastProcessedValue), batchSize);
      var step := ProcessSession(s, rs, batchSize);
      && step.items == items
      && (move.Removed? <==> step.next.None?)
      && (move.Kept? ==> step.next == Some(s))
      && (move.MovedTo? ==>
            && step.next.Some? && step.next.value.action == Execute
            && step.next.value.entityName == s.entityName
            && CursorReadable(step.next.value)
            && CursorValue(step.next.value.lastProcessedValue) == Some(move.value))
  {
    var (items, move) := ExecuteStep(s.entityName, rs, CursorValue(s.lastProcessedValue), batchSize);
    if move.MovedTo? {
      CursorRoundTrip(move.value);
    }
  }

  lemma {:induction false} CursorRoundTrip(v: nat)
    ensures CursorValue(CursorOf(Some(v))) == Some(v)
  {
  }

  /** A full page: P records are enqueued and the cursor moves to the last of them, right before record k + P. */
  lemma {:induction false} FullPage(e: string, rs: seq<Record>, cursor: Option<nat>, P: nat, k: nat)
    requires StrictlyAscending(rs) && P > 0 && k + P <= |rs|
    requires After(rs, cursor) == rs[k..]
    ensures ExecuteStep(e, rs, cursor, P) == (RecordItems(e, rs[k..k + P]), MovedTo(rs[k + P - 1].orderingValue))
    ensures After(rs, Some(rs[k + P - 1].orderingValue)) == rs[k + P..]
  {
    var page := rs[k..k + P];
    PageSlice(rs, cursor, P, k);
    FullStep(e, rs, cursor, P, page);
    assert page[P - 1] == rs[k + P - 1];
    AfterRecord(rs, k + P - 1);
  }

  /** The page after a cursor standing before record k is the next `size` records when there are that many. */
  lemma PageSlice(rs: seq<Record>, cursor: Option<nat>, size: nat, k: nat)
    requires k + size <= |rs| && After(rs, cursor) == rs[k..]
    ensures Page(rs, cursor, size) == rs[k..k + size]
  {
    assert rs[k..][..size] == rs[k..k + size];
  }

  /** A full, non-empty page is enqueued and the cursor moves to its last record. */
  lemma FullStep(e: string, rs: seq<Record>, cursor: Option<nat>, P: nat, page: seq<Record>)
    requires P > 0 && Page(rs, cursor, P) == page && |page| == P
    ensures ExecuteStep(e, rs, cursor, P) == (RecordItems(e, page), MovedTo(page[P - 1].orderingValue))
  {
  }

  /** A short page: the remaining records are enqueued and the session is removed. */
  lemma {:induction false} ShortPage(e: string, rs: seq<Record>, cursor: Option<nat>, P: nat, k: nat)
    requires k <= |rs| < k + P
    requires After(rs, cursor) == rs[k..]
    ensures ExecuteStep(e, rs, cursor, P) == (RecordItems(e, rs[k..]), Removed)
  {
  }

  /**
   * Progress of one call on an executing session whose cursor stands before
   * record k, in pages of P > 0: a short remainder is enqueued in full and
   * the session removed; otherwise the next P records are enqueued and the
   * session kept for the same entity, its cursor now right before record k + P.
   */
  lemma ProcessSessionProgress(s: Session, rs: seq<Record>, P: nat, k: nat)
    requires s.action == Execute && CursorReadable(s)
    requires StrictlyAscending(rs) && P > 0 && k <= |rs|
    requires After(rs, CursorValue(s.lastProcessedValue)) == rs[k..]
    ensures var step := ProcessSession(s, rs, P);
      if |rs| - k < P then
        step.items == RecordItems(s.entityName, rs[k..]) && step.next.None?
      else
        && step.items == RecordItems(s.entityName, rs[k..k + P])
        && step.next.Some? && step.next.value.action == Execute
        && step.next.value.entityName == s.entityName
        && CursorReadable(step.next.value)
        && After(rs, CursorValue(step.next.value.lastProcessedValue)) == rs[k + P..]
  {
    ProcessSessionFollowsCursor(s, rs, P);
    if |rs| - k < P {
      ShortPage(s.entityName, rs, CursorValue(s.lastProcessedValue), P, k);
    } else {
      FullPage(s.entityName, rs, CursorValue(s.lastProcessedValue), P, k);
    }
  }

  /**
   * At most `calls` processing calls, each on the session the previous one
   * kept: the items enqueued in all, and whether the last call removed the
   * session.
   */
  function Run(s: Session, rs: seq<Record>, P: nat, calls: nat): (seq<QueueItem>, bool)
    requires CursorReadable(s)
    decreases calls
  {
    if calls == 0 then ([], false)
    else
      var step := ProcessSession(s, rs, P);
      if step.next.None? then (step.items, true)
      else
        var rest := Run(step.next.value, rs, P, calls - 1);
        (step.items + rest.0, rest.1)
  }

  /** Calls after one that kept the session: its items, then what the remaining calls give. */
  lemma RunKept(s: Session, rs: seq<Record>, P: nat, calls: nat, s': Session)
    requires CursorReadable(s) && calls > 0
    requires ProcessSession(s, rs, P).next == Some(s')
    ensures CursorReadable(s')
    ensures Run(s, rs, P, calls) == (ProcessSession(s, rs, P).items + Run(s', rs, P, calls - 1).0, Run(s', rs, P, calls - 1).1)
  {
  }

  /** The items of records i.. are those of records i..j, `a`, followed by those of records j... */
  lemma RecordItemsSplit(e: string, rs: seq<Record>, i: nat, j: nat, a: seq<QueueItem>)
    requires i <= j <= |rs| && a == RecordItems(e, rs[i..j])
    ensures RecordItems(e, rs[i..]) == a + RecordItems(e, rs[j..])
  {
    assert rs[i..] == rs[i..j] + rs[j..];
  }

  /** The calls that n remaining records need in pages of P: one per full page, plus the final short one. */
  function CallsNeeded(n: nat, P: nat): (calls: nat)
    requires P > 0
    ensures calls > 0
    decreases n
  {
    if n < P then 1 else 1 + CallsNeeded(n - P, P)
  }

  /** One call covers fewer than P records; n >= P records need one call more than the n - P after the first page. */
  lemma CallsNeededPeel(n: nat, P: nat, m: int)
    requires P > 0 && m == n - P
    ensures n < P ==> CallsNeeded(n, P) == 1
    ensures n >= P ==> m >= 0 && CallsNeeded(n, P) == CallsNeeded(m, P) + 1
  {
  }

  /** CallsNeeded is the number of pages of P that first covers more than n records. */
  lemma {:induction false} CallsNeededBounds(n: nat, P: nat)
    requires P > 0
    ensures (CallsNeeded(n, P) - 1) * P <= n < CallsNeeded(n, P) * P
    decreases n
  {
    if n >= P {
      CallsNeededBounds(n - P, P);
      var c := CallsNeeded(n - P, P);
      assert CallsNeeded(n, P) * P == c * P + P;
    }
  }

  /**
   * Exhaustion: an executing session whose cursor stands before record k,
   * processed in pages of P > 0, is removed by call number
   * CallsNeeded(|rs| - k, P), the first whose page is short, and not by one
   * call fewer;
   * by then every remaining record has been enqueued exactly
   * once, in order, as an INDEX item.
   */
  lemma Exhaust(s: Session, rs: seq<Record>, P: nat, k: nat) returns (calls: nat)
    requires s.action == Execute && CursorReadable(s)
    requires StrictlyAscending(rs) && P > 0 && k <= |rs|
    requires After(rs, CursorValue(s.lastProcessedValue)) == rs[k..]
    ensures calls == CallsNeeded(|rs| - k, P)
    ensures Run(s, rs, P, calls) == (RecordItems(s.entityName, rs[k..]), true)
    ensures !Run(s, rs, P, calls - 1).1
  {
    calls := CallsNeeded(|rs| - k, P);
    ExhaustIn(s, rs, P, k, calls);
  }

  /** Exhaust, for the number of calls given. */
  lemma {:induction false} ExhaustIn(s: Session, rs: seq<Record>, P: nat, k: nat, calls: nat)
    requires s.action == Execute && CursorReadable(s)
    requires StrictlyAscending(rs) && P > 0 && k <= |rs|
    requires After(rs, CursorValue(s.lastProcessedValue)) == rs[k..]
    requires calls == CallsNeeded(|rs| - k, P)
    ensures Run(s, rs, P, calls) == (RecordItems(s.entityName, rs[k..]), true)
    ensures !Run(s, rs, P, calls - 1).1
    decreases |rs| - k, 2
  {
    if |rs| - k < P {
      CallsNeededPeel(|rs| - k, P, |rs| - (k + P));
      ExhaustShort(s, rs, P, k);
    } else {
      ExhaustFull(s, rs, P, k, calls);
    }
  }

  /** ExhaustIn when at least a full page is left: that page, then the calls after it. */
  lemma {:induction false} ExhaustFull(s: Session, rs: seq<Record>, P: nat, k: nat, calls: nat)
    requires s.action == Execute && CursorReadable(s)
    requires StrictlyAscending(rs) && P > 0 && k + P <= |rs|
    requires After(rs, CursorValue(s.lastProcessedValue)) == rs[k..]
    requires calls == CallsNeeded(|rs| - k, P)
    ensures Run(s, rs, P, calls) == (RecordItems(s.entityName, rs[k..]), true)
    ensures !Run(s, rs, P, calls - 1).1
    decreases |rs| - k, 1
  {
    ExhaustTail(s, rs, P, k, calls);
    ExhaustCombine(s, rs, P, k, calls);
  }

  /** After a full page, the session PageSuccessor leaves is exhausted by the remaining calls. */
  lemma {:induction false} ExhaustTail(s: Session, rs: seq<Record>, P: nat, k: nat, calls: nat)
    requires s.action == Execute && CursorReadable(s)
    requires StrictlyAscending(rs) && P > 0 && k + P <= |rs|
    requires After(rs, CursorValue(s.lastProcessedValue)) == rs[k..]
    requires calls == CallsNeeded(|rs| - k, P)
    ensures calls > 1
    ensures Run(PageSuccessor(s, rs, P, k), rs, P, calls - 1) == (RecordItems(s.entityName, rs[k + P..]), true)
    ensures !Run(PageSuccessor(s, rs, P, k), rs, P, calls - 1 - 1).1
    decreases |rs| - k, 0
  {
    CallsNeededPeel(|rs| - k, P, |rs| - (k + P));
    PageSuccessorCursor(s, rs, P, k);
    ExhaustIn(PageSuccessor(s, rs, P, k), rs, P, k + P, calls - 1);
  }

  /** The session a full page of records k..k+P-1 leaves behind: its cursor on the last record of the page. */
  function PageSuccessor(s: Session, rs: seq<Record>, P: nat, k: nat): Session
    requires P > 0 && k + P <= |rs|
  {
    s.(lastProcessedValue := Sessions.CursorOf(Some(rs[k + P - 1].orderingValue)))
  }

  /** The session after a full page still executes for the same entity, its cursor right before record k + P. */
  lemma PageSuccessorCursor(s: Session, rs: seq<Record>, P: nat, k: nat)
    requires s.action == Execute && CursorReadable(s)
    requires StrictlyAscending(rs) && P > 0 && k + P <= |rs|
    requires After(rs, CursorValue(s.lastProcessedValue)) == rs[k..]
    ensures var s' := PageSuccessor(s, rs, P, k);
      && s'.action == Execute && s'.entityName == s.entityName && CursorReadable(s')
      && After(rs, CursorValue(s'.lastProcessedValue)) == rs[k + P..]
  {
    FullPageSession(s, rs, P, k);
  }

  /** A full page followed by a run that exhausts the records after it. */
  lemma ExhaustCombine(s: Session, rs: seq<Record>, P: nat, k: nat, calls: nat)
    requires s.action == Execute && CursorReadable(s)
    requires StrictlyAscending(rs) && P > 0 && k + P <= |rs| && calls > 1
    requires After(rs, CursorValue(s.lastProcessedValue)) == rs[k..]
    requires Run(PageSuccessor(s, rs, P, k), rs, P, calls - 1) == (RecordItems(s.entityName, rs[k + P..]), true)
    requires !Run(PageSuccessor(s, rs, P, k), rs, P, calls - 1 - 1).1
    ensures Run(s, rs, P, calls) == (RecordItems(s.entityName, rs[k..]), true)
    ensures !Run(s, rs, P, calls - 1).1
  {
    var c := calls - 1;
    var s' := PageSuccessor(s, rs, P, k);
    FullPageSession(s, rs, P, k);
    ExhaustStep(s, rs, P, k, s', c);
    NotRemovedYet(s, rs, P, s', c);
  }

  /** The last call of a run: a short page removes the session after enqueueing the remaining records. */
  lemma ExhaustShort(s: Session, rs: seq<Record>, P: nat, k: nat)
    requires s.action == Execute && CursorReadable(s)
    requires StrictlyAscending(rs) && P > 0 && k <= |rs| < k + P
    requires After(rs, CursorValue(s.lastProcessedValue)) == rs[k..]
    ensures Run(s, rs, P, 1) == (RecordItems(s.entityName, rs[k..]), true)
    ensures !Run(s, rs, P, 0).1
  {
    ProcessSessionProgress(s, rs, P, k);
  }

  /** A call on a full page enqueues that page and keeps the session as PageSuccessor, its cursor right before record k + P. */
  lemma FullPageSession(s: Session, rs: seq<Record>, P: nat, k: nat)
    requires s.action == Execute && CursorReadable(s)
    requires StrictlyAscending(rs) && P > 0 && k + P <= |rs|
    requires After(rs, CursorValue(s.lastProcessedValue)) == rs[k..]
    ensures ProcessSession(s, rs, P).next == Some(PageSuccessor(s, rs, P, k))
    ensures ProcessSession(s, rs, P).items == RecordItems(s.entityName, rs[k..k + P])
    ensures After(rs, CursorValue(PageSuccessor(s, rs, P, k).lastProcessedValue)) == rs[k + P..]
  {
    FullPage(s.entityName, rs, CursorValue(s.lastProcessedValue), P, k);
    assert CursorValue(PageSuccessor(s, rs, P, k).lastProcessedValue) == Some(rs[k + P - 1].orderingValue);
    assert ProcessSession(s, rs, P) == SessionStep(P, Some(PageSuccessor(s, rs, P, k)), RecordItems(s.entityName, rs[k..k + P]));
  }

  /** The inductive step of Exhaust: a full page, then the calls that exhaust the records after it. */
  lemma ExhaustStep(s: Session, rs: seq<Record>, P: nat, k: nat, s': Session, c: nat)
    requires CursorReadable(s) && k + P <= |rs| && c > 0
    requires ProcessSession(s, rs, P).next == Some(s')
    requires ProcessSession(s, rs, P).items == RecordItems(s.entityName, rs[k..k + P])
    requires CursorReadable(s') && Run(s', rs, P, c) == (RecordItems(s.entityName, rs[k + P..]), true)
    ensures Run(s, rs, P, c + 1) == (RecordItems(s.entityName, rs[k..]), true)
  {
    RunKept(s, rs, P, c + 1, s');
    RunGlue(s.entityName, rs, k, k + P, ProcessSession(s, rs, P).items, Run(s, rs, P, c + 1), Run(s', rs, P, c));
  }

  /** A run of a first call giving `a`, then a rest that removes the session after the items of records j... */
  lemma RunGlue(e: string, rs: seq<Record>, k: nat, j: nat, a: seq<QueueItem>,
                    run: (seq<QueueItem>, bool), rest: (seq<QueueItem>, bool))
    requires k <= j <= |rs| && a == RecordItems(e, rs[k..j])
    requires run == (a + rest.0, rest.1) && rest == (RecordItems(e, rs[j..]), true)
    ensures run == (RecordItems(e, rs[k..]), true)
  {
    RecordItemsSplit(e, rs, k, j, a);
  }

  /** A call that keeps the session, before calls that do not remove it, does not remove it either. */
  lemma NotRemovedYet(s: Session, rs: seq<Record>, P: nat, s': Session, c: nat)
    requires CursorReadable(s) && c > 0
    requires ProcessSession(s, rs, P).next == Some(s')
    requires CursorReadable(s') && !Run(s', rs, P, c - 1).1
    ensures !Run(s, rs, P, c).1
  {
    RunKept(s, rs, P, c, s');
  }

  /**
   * A fresh session over N records, in pages of P > 0: the first call with
   * (calls - 1) * P <= N < calls * P removes the session, and by then one
   * INDEX item per record, N in all, has been enqueued.
   */
  lemma FreshSessionEnqueuesAll(s: Session, rs: seq<Record>, P: nat) returns (calls: nat)
    requires s.action == Execute && s.lastProcessedValue.None?
    requires StrictlyAscending(rs) && P > 0
    ensures calls > 0 && (calls - 1) * P <= |rs| < calls * P
    ensures Run(s, rs, P, calls).1 && !Run(s, rs, P, calls - 1).1
    ensures Run(s, rs, P, calls).0 == RecordItems(s.entityName, rs)
    ensures CountOp(Run(s, rs, P, calls).0, s.entityName, Index) == |rs|
  {
    assert rs[0..] == rs;
    calls := Exhaust(s, rs, P, 0);
    CallsNeededBounds(|rs|, P);
    CountOpRecordItems(s.entityName, rs, s.entityName, Index);
  }

  lemma {:induction false} AllIndexOf(q: seq<QueueItem>, e: string)
    requires forall i :: 0 <= i < |q| ==> q[i].entityName == e && q[i].operation == Index
    ensures CountOp(q, e, Index) == |q|
    decreases |q|
  {
    if q != [] {
      AllIndexOf(q[1..], e);
    }
  }

  /**
   * Three records, batch size 2: the first call enqueues 2 and keeps the
   * executing session with a cursor; the second enqueues 1 and removes it;
   * 3 INDEX items of the entity are then queued.
   */
  lemma ThreeRecordsTwoPerBatch(s: Session, rs: seq<Record>)
    requires StrictlyAscending(rs) && |rs| == 3
    requires s.action == Execute && s.lastProcessedValue.None?
    ensures var first := ProcessSession(s, rs, 2);
      && first.count == 2 && first.next.Some?
      && first.next.value.action == Execute && first.next.value.lastProcessedValue.Some?
      && var second := ProcessSession(first.next.value, rs, 2);
      && second.count == 1 && second.next.None?
      && CountOp(first.items + second.items, s.entityName, Index) == 3
  {
    var first := ProcessSession(s, rs, 2);
    assert Page(rs, None, 2) == rs[..2];
    var s1 := first.next.value;
    assert CursorValue(s1.lastProcessedValue) == Some(rs[1].orderingValue) by {
      Decimal.ParseToDecimal(rs[1].orderingValue);
    }
    AfterRecord(rs, 1);
    var second := ProcessSession(s1, rs, 2);
    assert second.items == RecordItems(s.entityName, rs[2..]);
    CountOpAppend(first.items, second.items, s.entityName, Index);
    AllIndexOf(first.items, s.entityName);
    AllIndexOf(second.items, s.entityName);
  }

  /**
   * Suspend, process, resume, process: the suspended call enqueues nothing
   * and keeps the session; after the resume the call behaves as if the
   * session had never been suspended.
   */
  lemma SuspendedThenResumed(store: Store, e: string, rs: seq<Record>, batchSize: nat)
    requires e in store && store[e].action == Execute && CursorReadable(store[e])
    ensures var suspended := SuspendTransition(store, e).store;
      && ProcessSession(suspended[e], rs, batchSize) == SessionStep(0, Some(suspended[e]), [])
      && var resumed := ResumeTransition(suspended, e).store;
      && resumed == store
      && ProcessSession(resumed[e], rs, batchSize) == ProcessSession(store[e], rs, batchSize)
  {
    SuspendResumeRestores(store, e);
  }
}
