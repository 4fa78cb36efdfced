/** The relay's transaction queue and the processor that drains it. */
module Queue {
  import opened Results

  datatype Kind = Deposit | Withdrawal

  datatype Status = Pending | Submitted | Confirmed | Failed

  datatype Item = Item(id: string, kind: Kind, payload: string, status: Status, createdAt: nat,
                       submittedAt: Option<nat>, txId: Option<string>, error: Option<string>)

  /** The file the queue is persisted to. */
  datatype Disk = Absent | Unreadable | Holds(items: seq<Item>)

  /** How a write to the file ends: done, failed with the file as it was, or failed after truncating it. */
  datatype Write = Written | Refused | Torn

  function AfterWrite(before: Disk, items: seq<Item>, write: Write): Disk {
    match write
    case Written => Holds(items)
    case Refused => before
    case Torn => Unreadable
  }

  /** A file that cannot be read counts as an empty queue. */
  function ItemsOn(disk: Disk): seq<Item> {
    if disk.Holds? then disk.items else []
  }

  function NewItem(id: string, kind: Kind, payload: string, now: nat): Item {
    Item(id, kind, payload, Pending, now, None, None, None)
  }

  /** Position of the first item from i on with this id, or the length. */
  function Find(items: seq<Item>, id: string, i: nat): nat
    decreases |items| - i
  {
    if i >= |items| || items[i].id == id then i else Find(items, id, i + 1)
  }

  function FirstPending(items: seq<Item>, i: nat): nat
    decreases |items| - i
  {
    if i >= |items| || items[i].status == Pending then i else FirstPending(items, i + 1)
  }

  /** The queue after item id was overwritten; unknown ids change nothing. */
  function Marked(items: seq<Item>, id: string, status: Status, submittedAt: Option<nat>, txId: Option<string>,
                  error: Option<string>): seq<Item>
  {
    var k := Find(items, id, 0);
    if k >= |items| then items
    else
      var item := items[k];
      items[k := item.(status := status,
                       submittedAt := if submittedAt.Some? then submittedAt else item.submittedAt,
                       txId := if txId.Some? then txId else item.txId,
                       error := if error.Some? then error else item.error)]
  }

  function Pendings(items: seq<Item>, kind: Kind): nat {
    if items == [] then 0
    else Pendings(items[..|items| - 1], kind)
         + if items[|items| - 1].status == Pending && items[|items| - 1].kind == kind then 1 else 0
  }

  class TransactionQueue {
    var items: seq<Item>
    var disk: Disk

    constructor (disk: Disk)
      ensures this.disk == disk && items == ItemsOn(disk)
    {
      this.disk := disk;
      items := if disk.Holds? then disk.items else [];
    }

    /** A failed write is only logged. */
    method Persist(write: Write)
      modifies this`disk
      ensures disk == AfterWrite(old(disk), items, write)
    {
      match write {
        case Written => disk := Holds(items);
        case Refused =>
        case Torn => disk := Unreadable;
      }
    }

    method Enqueue(kind: Kind, payload: string, id: string, now: nat, write: Write) returns (r: string)
      modifies this
      ensures r == id && items == old(items) + [NewItem(id, kind, payload, now)]
      ensures disk == AfterWrite(old(disk), items, write)
    {
      items := items + [Item(id, kind, payload, Pending, now, None, None, None)];
      Persist(write);
      r := id;
    }

    method PeekNext() returns (next: Option<Item>)
      ensures var k := FirstPending(items, 0); next == if k < |items| then Some(items[k]) else None
    {
      var i := 0;
      while i < |items| && items[i].status != Pending
        invariant i <= |items| && FirstPending(items, 0) == FirstPending(items, i)
      {
        i := i + 1;
      }
      next := if i < |items| then Some(items[i]) else None;
    }

    method FindIndex(id: string) returns (k: nat)
      ensures k == Find(items, id, 0)
    {
      k := 0;
      while k < |items| && items[k].id != id
        invariant k <= |items| && Find(items, id, 0) == Find(items, id, k)
      {
        k := k + 1;
      }
    }

    method GetStatus(id: string) returns (r: Option<Item>)
      ensures var k := Find(items, id, 0); r == if k < |items| then Some(items[k]) else None
    {
      var k := FindIndex(id);
      r := if k < |items| then Some(items[k]) else None;
    }

    /** Nothing is written for an unknown id. */
    method Mark(id: string, status: Status, submittedAt: Option<nat>, txId: Option<string>, error: Option<string>,
                write: Write)
      modifies this
      ensures items == Marked(old(items), id, status, submittedAt, txId, error)
      ensures disk == if Find(old(items), id, 0) < |old(items)| then AfterWrite(old(disk), items, write) else old(disk)
    {
      var k := FindIndex(id);
      if k >= |items| {
        return;
      }
      var item := items[k];
      item := item.(status := status);
      if submittedAt.Some? { item := item.(submittedAt := submittedAt); }
      if txId.Some? { item := item.(txId := txId); }
      if error.Some? { item := item.(error := error); }
      items := items[k := item];
      Persist(write);
    }

    method MarkSubmitted(id: string, txId: string, now: nat, write: Write)
      modifies this
      ensures items == Marked(old(items), id, Submitted, Some(now), Some(txId), None)
      ensures disk == if Find(old(items), id, 0) < |old(items)| then AfterWrite(old(disk), items, write) else old(disk)
    {
      Mark(id, Submitted, Some(now), Some(txId), None, write);
    }

    method MarkConfirmed(id: string, write: Write)
      modifies this
      ensures items == Marked(old(items), id, Confirmed, None, None, None)
      ensures disk == if Find(old(items), id, 0) < |old(items)| then AfterWrite(old(disk), items, write) else old(disk)
    {
      Mark(id, Confirmed, None, None, None, write);
    }

    method MarkFailed(id: string, error: string, write: Write)
      modifies this
      ensures items == Marked(old(items), id, Failed, None, None, Some(error))
      ensures disk == if Find(old(items), id, 0) < |old(items)| then AfterWrite(old(disk), items, write) else old(disk)
    {
      Mark(id, Failed, None, None, Some(error), write);
    }

    method GetPendingCount() returns (deposits: nat, withdrawals: nat)
      ensures deposits == Pendings(items, Deposit) && withdrawals == Pendings(items, Withdrawal)
    {
      deposits, withdrawals := 0, 0;
      for i := 0 to |items|
        invariant deposits == Pendings(items[..i], Deposit) && withdrawals == Pendings(items[..i], Withdrawal)
      {
        assert items[..i + 1][..i] == items[..i];
        if items[i].status == Pending {
          if items[i].kind == Deposit {
            deposits := deposits + 1;
          } else {
            withdrawals := withdrawals + 1;
          }
        }
      }
      assert items[..|items|] == items;
    }
  }

  // ------------------------------------------------------------------
  // The relay as a state machine
  // ------------------------------------------------------------------

  /** What came of a submission. */
  datatype Outcome = Accepted(txId: string) | Rejected(error: string)

  function Settled(items: seq<Item>, id: string, outcome: Outcome, now: nat): seq<Item> {
    match outcome
    case Accepted(txId) => Marked(items, id, Submitted, Some(now), Some(txId), None)
    case Rejected(error) => Marked(items, id, Failed, None, None, Some(error))
  }

  /** History: ids given out, ids submitted in order, restarts, and changes that were not written. */
  datatype Log = Log(used: set<string>, attempts: seq<string>, crashes: nat, lost: nat)

  datatype World = World(items: seq<Item>, disk: Disk, inFlight: Option<string>, log: Log)

  datatype Event = Enqueued(id: string, kind: Kind, payload: string, now: nat, write: Write)
                 | Began
                 | Finished(outcome: Outcome, now: nat, write: Write)
                 | Restarted

  /** A process that has just started on this file. */
  function Started(disk: Disk, log: Log): World {
    World(ItemsOn(disk), disk, None, log)
  }

  /** The world after the items changed. */
  function Saved(w: World, items: seq<Item>, write: Write): World {
    w.(items := items, disk := AfterWrite(w.disk, items, write),
       log := w.log.(lost := w.log.lost + if write.Written? then 0 else 1))
  }

  function Step(w: World, e: Event): World {
    match e
    case Enqueued(id, kind, payload, now, write) =>
      Saved(w.(log := w.log.(used := w.log.used + {id})), w.items + [NewItem(id, kind, payload, now)], write)
    case Began =>
      var k := FirstPending(w.items, 0);
      if w.inFlight.Some? || k >= |w.items| then w
      else w.(inFlight := Some(w.items[k].id), log := w.log.(attempts := w.log.attempts + [w.items[k].id]))
    case Finished(outcome, now, write) =>
      if w.inFlight.None? then w
      else
        var id, idle := w.inFlight.value, w.(inFlight := None);
        if Find(w.items, id, 0) >= |w.items| then idle else Saved(idle, Settled(w.items, id, outcome, now), write)
    case Restarted => Started(w.disk, w.log.(crashes := w.log.crashes + 1))
  }

  /**
   * The relay process: its queue and the processor, with processNext cut at its await. Begin picks the item that is
   * then submitted, Finish records the outcome. Enqueue may come in between.
   */
  class Relay {
    const queue: TransactionQueue
    var processing: bool
    var current: Option<Item>
    ghost var log: Log

    ghost predicate Valid()
      reads this
    {
      processing <==> current.Some?
    }

    ghost function View(): World
      reads this, queue
    {
      World(queue.items, queue.disk, if current.Some? then Some(current.value.id) else None, log)
    }

    /** A start or, with the log of what came before, a restart. */
    constructor (disk: Disk, ghost log: Log)
      ensures Valid() && fresh(queue) && View() == Started(disk, log)
      ensures forall w: World :: w.disk == disk && log == w.log.(crashes := w.log.crashes + 1) ==>
                                   View() == Step(w, Restarted)
    {
      queue := new TransactionQueue(disk);
      processing := false;
      current := None;
      this.log := log;
    }

    method Enqueue(kind: Kind, payload: string, id: string, now: nat, write: Write) returns (r: string)
      requires Valid()
      modifies this`log, queue
      ensures Valid() && r == id && View() == Step(old(View()), Enqueued(id, kind, payload, now, write))
    {
      r := queue.Enqueue(kind, payload, id, now, write);
      log := log.(used := log.used + {id}, lost := log.lost + if write.Written? then 0 else 1);
    }

    method Begin() returns (submit: Option<Item>)
      requires Valid()
      modifies this
      ensures Valid() && View() == Step(old(View()), Began)
      ensures old(processing) ==> submit == None && current == old(current)
      ensures !old(processing) ==>
                var k := FirstPending(queue.items, 0);
                current == submit == if k < |queue.items| then Some(queue.items[k]) else None
    {
      if processing {
        return None;
      }
      var item := queue.PeekNext();
      if item.None? {
        return None;
      }
      processing := true;
      current := item;
      submit := item;
      log := log.(attempts := log.attempts + [item.value.id]);
    }

    method Finish(outcome: Outcome, now: nat, write: Write)
      requires Valid() && processing
      modifies this, queue
      ensures Valid() && !processing && View() == Step(old(View()), Finished(outcome, now, write))
    {
      var id := current.value.id;
      ghost var found := Find(queue.items, id, 0) < |queue.items|;
      match outcome {
        case Accepted(txId) => queue.MarkSubmitted(id, txId, now, write);
        case Rejected(error) => queue.MarkFailed(id, error, write);
      }
      processing := false;
      current := None;
      log := log.(lost := log.lost + if found && !write.Written? then 1 else 0);
    }
  }
}

/** Every run of the relay: enqueues, submissions, outcomes, failed writes and restarts in any order. */
module QueueRuns {
  import opened Results
  import opened Queue

  const START := Started(Absent, Log({}, [], 0, 0))

  /** A fresh id for every enqueue, as random UUIDs give. Everything else may happen at any time. */
  predicate Enabled(w: World, e: Event) {
    e.Enqueued? ==> e.id !in w.log.used
  }

  function After(events: seq<Event>): World {
    if events == [] then START else Step(After(events[..|events| - 1]), events[|events| - 1])
  }

  ghost predicate IsRun(events: seq<Event>) {
    events != [] ==> IsRun(events[..|events| - 1]) && Enabled(After(events[..|events| - 1]), events[|events| - 1])
  }

  // ------------------------------------------------------------------
  // One queue: a finished prefix, then a pending suffix
  // ------------------------------------------------------------------

  ghost predicate DistinctIds(items: seq<Item>) {
    forall i, j :: 0 <= i < j < |items| ==> items[i].id != items[j].id
  }

  /** The first f items are finished and the rest are pending. */
  ghost predicate SplitsAt(items: seq<Item>, f: nat) {
    && f <= |items|
    && (forall i :: 0 <= i < f ==> items[i].status != Pending)
    && (forall i :: f <= i < |items| ==> items[i].status == Pending)
  }

  /** Items as a run leaves them: known ids, and a finished prefix of which everything was submitted. */
  ghost predicate Good(items: seq<Item>, log: Log) {
    && DistinctIds(items)
    && (forall i :: 0 <= i < |items| ==> items[i].id in log.used)
    && SplitsAt(items, FirstPending(items, 0))
    && (forall i :: 0 <= i < FirstPending(items, 0) ==> items[i].id in log.attempts)
  }

  lemma {:induction false} FirstPendingAt(items: seq<Item>, f: nat, i: nat)
    requires SplitsAt(items, f) && i <= f
    ensures FirstPending(items, i) == f
    decreases f - i
  {
    if i < f { FirstPendingAt(items, f, i + 1); }
  }

  lemma {:induction false} FindAt(items: seq<Item>, f: nat, i: nat)
    requires DistinctIds(items) && i <= f < |items|
    ensures Find(items, items[f].id, i) == f
    decreases f - i
  {
    if i < f { FindAt(items, f, i + 1); }
  }

  lemma GoodAppend(items: seq<Item>, log: Log, e: Event)
    requires Good(items, log) && e.Enqueued? && e.id !in log.used
    ensures var items' := items + [NewItem(e.id, e.kind, e.payload, e.now)];
            && Good(items', log.(used := log.used + {e.id}))
            && FirstPending(items', 0) == FirstPending(items, 0)
  {
    FirstPendingAt(items + [NewItem(e.id, e.kind, e.payload, e.now)], FirstPending(items, 0), 0);
  }

  /** What is good stays so when more is known. */
  lemma GoodMore(items: seq<Item>, log: Log, log': Log)
    requires Good(items, log) && log.used <= log'.used && forall a :: a in log.attempts ==> a in log'.attempts
    ensures Good(items, log')
  {
  }

  lemma GoodNothing(log: Log)
    ensures Good([], log)
  {
  }

  lemma KnownId(items: seq<Item>, log: Log, i: nat)
    requires Good(items, log) && i < |items|
    ensures items[i].id in log.used
  {
  }

  lemma PendingAfter(items: seq<Item>, log: Log)
    requires Good(items, log)
    ensures FirstPending(items, 0) <= |items|
    ensures forall i :: 0 <= i < |items| ==> (items[i].status != Pending <==> i < FirstPending(items, 0))
  {
  }

  /** Settling the first pending item moves the boundary by one. */
  lemma GoodSettle(items: seq<Item>, log: Log, outcome: Outcome, now: nat)
    requires var f := FirstPending(items, 0);
             Good(items, log) && f < |items| && items[f].id in log.attempts
    ensures var f := FirstPending(items, 0);
            var items' := Settled(items, items[f].id, outcome, now);
            && Find(items, items[f].id, 0) == f
            && |items'| == |items| && items' == items[f := items'[f]]
            && items'[f].id == items[f].id && items'[f].status != Pending
            && Good(items', log) && FirstPending(items', 0) == f + 1
  {
    var f := FirstPending(items, 0);
    FindAt(items, f, 0);
    FirstPendingAt(Settled(items, items[f].id, outcome, now), f + 1, 0);
  }

  // ------------------------------------------------------------------
  // Pending items that were submitted before
  // ------------------------------------------------------------------

  function Retries(items: seq<Item>, ids: set<string>): nat {
    if items == [] then 0
    else
      var last := items[|items| - 1];
      Retries(items[..|items| - 1], ids) + if last.status == Pending && last.id in ids then 1 else 0
  }

  lemma RetriesPush(items: seq<Item>, item: Item, ids: set<string>)
    ensures Retries(items + [item], ids)
            == Retries(items, ids) + if item.status == Pending && item.id in ids then 1 else 0
  {
    assert (items + [item])[..|items|] == items;
  }

  /** Ids that are not in the queue do not count. */
  lemma {:induction false} RetriesForeign(items: seq<Item>, ids: set<string>, id: string)
    requires forall i :: 0 <= i < |items| ==> items[i].id != id
    ensures Retries(items, ids + {id}) == Retries(items, ids) == Retries(items, ids - {id})
  {
    if items != [] {
      RetriesForeign(items[..|items| - 1], ids, id);
    }
  }

  /** One more id is at most one more retry. */
  lemma {:induction false} RetriesGrow(items: seq<Item>, ids: set<string>, id: string)
    requires DistinctIds(items)
    ensures Retries(items, ids) <= Retries(items, ids + {id}) <= Retries(items, ids) + 1
    ensures Retries(items, ids) <= Retries(items, ids - {id}) + 1
  {
    if items != [] {
      var n := |items| - 1;
      if items[n].id == id {
        RetriesForeign(items[..n], ids, id);
      } else {
        RetriesGrow(items[..n], ids, id);
      }
    }
  }

  /** An item that is settled, or whose id is not asked for, does not count. */
  lemma {:induction false} RetriesWithout(items: seq<Item>, f: nat, settled: Item, ids: set<string>)
    requires DistinctIds(items) && f < |items| && items[f].status == Pending
    requires settled.id == items[f].id && settled.status != Pending
    ensures Retries(items[f := settled], ids) == Retries(items, ids - {items[f].id})
    ensures Retries(items, ids) == Retries(items, ids - {items[f].id}) + if items[f].id in ids then 1 else 0
  {
    var n := |items| - 1;
    var front := items[..n];
    if f == n {
      RetriesForeign(front, ids, items[f].id);
      assert items[f := settled][..n] == front;
    } else {
      RetriesWithout(front, f, settled, ids);
      assert items[f := settled][..n] == front[f := settled];
    }
  }

  // ------------------------------------------------------------------
  // The invariant
  // ------------------------------------------------------------------

  function ToSet(s: seq<string>): set<string> {
    set a | a in s
  }

  lemma ToSetPush(s: seq<string>, a: string)
    ensures ToSet(s + [a]) == ToSet(s) + {a}
    ensures |ToSet(s + [a])| == |ToSet(s)| + if a in s then 0 else 1
  {
    if a in s {
      assert ToSet(s) + {a} == ToSet(s);
    }
  }

  function InFlight(w: World): set<string> {
    if w.inFlight.Some? then {w.inFlight.value} else {}
  }

  /** The file is an earlier state of the queue. */
  ghost predicate Precedes(disk: seq<Item>, items: seq<Item>) {
    && |disk| <= |items|
    && FirstPending(disk, 0) <= FirstPending(items, 0)
    && (forall i :: 0 <= i < |disk| ==> disk[i].id == items[i].id)
    && (forall i :: 0 <= i < |disk| && disk[i].status != Pending ==> items[i] == disk[i])
  }

  ghost predicate Shape(w: World) {
    && Good(w.items, w.log)
    && Good(ItemsOn(w.disk), w.log)
    && Precedes(ItemsOn(w.disk), w.items)
    && (forall a :: a in w.log.attempts ==> a in w.log.used)
    && (w.inFlight.Some? ==>
          var f := FirstPending(w.items, 0);
          f < |w.items| && w.items[f].id == w.inFlight.value && w.inFlight.value in w.log.attempts)
  }

  /**
   * Repeated attempts so far, and those still to come from memory, are paid for by restarts and lost writes; those
   * still to come from the file may cost one restart more while an item is in flight.
   */
  ghost predicate Paid(w: World) {
    var ids := ToSet(w.log.attempts);
    var budget := |ids| + w.log.crashes + w.log.lost;
    && |w.log.attempts| + Retries(w.items, ids - InFlight(w)) <= budget
    && |w.log.attempts| + Retries(ItemsOn(w.disk), ids) <= budget + |InFlight(w)|
  }

  ghost predicate Inv(w: World) {
    Shape(w) && Paid(w)
  }

  lemma ShapeEnqueued(w: World, e: Event)
    requires Shape(w) && e.Enqueued? && Enabled(w, e)
    ensures Shape(Step(w, e))
  {
    hide FirstPending, Good;
    GoodAppend(w.items, w.log, e);
    GoodMore(ItemsOn(w.disk), w.log, Step(w, e).log);
    GoodMore(w.items + [NewItem(e.id, e.kind, e.payload, e.now)], w.log.(used := w.log.used + {e.id}), Step(w, e).log);
    GoodNothing(Step(w, e).log);
    FirstPendingAt([], 0, 0);
  }

  /** Appending an item that was never submitted adds no retry. */
  lemma RetriesAppended(w: World, e: Event)
    requires Inv(w) && e.Enqueued? && Enabled(w, e)
    ensures var items := w.items + [NewItem(e.id, e.kind, e.payload, e.now)];
            var ids := ToSet(w.log.attempts);
            && Retries(items, ids) == Retries(w.items, ids)
            && Retries(items, ids - InFlight(w)) == Retries(w.items, ids - InFlight(w))
            && Retries(w.items, ids) <= Retries(w.items, ids - InFlight(w)) + |InFlight(w)|
            && Retries([], ids) == 0
  {
    var item, ids := NewItem(e.id, e.kind, e.payload, e.now), ToSet(w.log.attempts);
    assert e.id !in ids;
    RetriesPush(w.items, item, ids);
    RetriesPush(w.items, item, ids - InFlight(w));
    if w.inFlight.Some? {
      RetriesGrow(w.items, ids, w.inFlight.value);
    } else {
      assert ids - {} == ids;
    }
  }

  lemma PaidEnqueued(w: World, e: Event)
    requires Inv(w) && e.Enqueued? && Enabled(w, e)
    ensures Paid(Step(w, e))
  {
    RetriesAppended(w, e);
    hide Retries, ToSet, Shape, NewItem;
  }

  lemma ShapeBegan(w: World)
    requires Shape(w)
    ensures Shape(Step(w, Began))
  {
    hide FirstPending, Good, Precedes;
    var f := FirstPending(w.items, 0);
    if w.inFlight.None? && f < |w.items| {
      var log := w.log.(attempts := w.log.attempts + [w.items[f].id]);
      GoodMore(w.items, w.log, log);
      GoodMore(ItemsOn(w.disk), w.log, log);
      KnownId(w.items, w.log, f);
    }
  }

  lemma PaidBegan(w: World)
    requires Inv(w)
    ensures Paid(Step(w, Began))
  {
    var f := FirstPending(w.items, 0);
    if w.inFlight.None? && f < |w.items| {
      var id, ids := w.items[f].id, ToSet(w.log.attempts);
      ToSetPush(w.log.attempts, id);
      RetriesWithout(w.items, f, w.items[f].(status := Failed), ids);
      RetriesGrow(ItemsOn(w.disk), ids, id);
      hide Retries, ToSet, Good, Precedes, FirstPending;
      assert ids + {id} - {id} == ids - {id};
      assert ids - {} == ids;
      if id in ids {
        assert ids + {id} == ids;
      }
    }
  }

  lemma ShapeFinished(w: World, e: Event)
    requires Shape(w) && e.Finished?
    ensures Shape(Step(w, e))
  {
    hide FirstPending, Good, Settled;
    if w.inFlight.Some? {
      GoodSettle(w.items, w.log, e.outcome, e.now);
      GoodMore(Settled(w.items, w.inFlight.value, e.outcome, e.now), w.log, Step(w, e).log);
      GoodMore(ItemsOn(w.disk), w.log, Step(w, e).log);
      GoodNothing(Step(w, e).log);
      FirstPendingAt([], 0, 0);
      PendingAfter(w.items, w.log);
    }
  }

  lemma PaidFinished(w: World, e: Event)
    requires Inv(w) && e.Finished?
    ensures Paid(Step(w, e))
  {
    if w.inFlight.Some? {
      var f, ids := FirstPending(w.items, 0), ToSet(w.log.attempts);
      GoodSettle(w.items, w.log, e.outcome, e.now);
      var items := Settled(w.items, w.items[f].id, e.outcome, e.now);
      RetriesWithout(w.items, f, items[f], ids);
      assert ids - {} == ids;
      assert Retries([], ids) == 0;
      hide Retries, ToSet, Good, Precedes, FirstPending, Settled, Find;
    }
  }

  lemma ShapeRestarted(w: World)
    requires Shape(w)
    ensures Shape(Step(w, Restarted))
  {
    hide FirstPending;
    GoodMore(ItemsOn(w.disk), w.log, w.log.(crashes := w.log.crashes + 1));
  }

  lemma PaidRestarted(w: World)
    requires Inv(w)
    ensures Paid(Step(w, Restarted))
  {
    assert ToSet(w.log.attempts) - {} == ToSet(w.log.attempts);
  }

  /** The invariant holds after every run. */
  lemma {:induction false} RunsKeepInv(events: seq<Event>)
    requires IsRun(events)
    ensures Inv(After(events))
  {
    if events != [] {
      var w, e := After(events[..|events| - 1]), events[|events| - 1];
      RunsKeepInv(events[..|events| - 1]);
      match e {
        case Enqueued(_, _, _, _, _) =>
          ShapeEnqueued(w, e);
          PaidEnqueued(w, e);
        case Began =>
          ShapeBegan(w);
          PaidBegan(w);
        case Finished(_, _, _) =>
          ShapeFinished(w, e);
          PaidFinished(w, e);
        case Restarted =>
          ShapeRestarted(w);
          PaidRestarted(w);
      }
    }
  }

  // ------------------------------------------------------------------
  // Consequences for every run
  // ------------------------------------------------------------------

  /** The first f items are finished and were submitted; the rest are pending. */
  ghost predicate FinishedPrefix(w: World, f: nat) {
    SplitsAt(w.items, f) && forall i :: 0 <= i < f ==> w.items[i].id in w.log.attempts
  }

  /** The items are always a finished prefix, all of it submitted at least once, followed by a pending suffix. */
  lemma FinishedThenPending(events: seq<Event>)
    requires IsRun(events)
    ensures exists f: nat :: FinishedPrefix(After(events), f)
  {
    RunsKeepInv(events);
    var w := After(events);
    assert FinishedPrefix(w, FirstPending(w.items, 0));
  }

  /** Repeated submissions number at most the restarts plus the changes that were not written. */
  lemma LossesBoundRepeats(events: seq<Event>)
    requires IsRun(events)
    ensures var log := After(events).log; |log.attempts| <= |ToSet(log.attempts)| + log.crashes + log.lost
  {
    RunsKeepInv(events);
  }

  function Ids(items: seq<Item>): seq<string> {
    seq(|items|, i requires 0 <= i < |items| => items[i].id)
  }

  /** How many items were submitted if none was submitted twice: the finished ones and the one in flight. */
  function Reached(w: World): nat {
    FirstPending(w.items, 0) + if w.inFlight.Some? then 1 else 0
  }

  ghost predicate InOrder(w: World) {
    Reached(w) <= |w.items| && w.log.attempts == Ids(w.items)[..Reached(w)]
  }

  lemma InOrderEnqueued(w: World, e: Event)
    requires Shape(w) && InOrder(w) && e.Enqueued? && Enabled(w, e)
    ensures InOrder(Step(w, e))
  {
    hide Precedes, FirstPending;
    GoodAppend(w.items, w.log, e);
  }

  lemma InOrderBegan(w: World)
    requires Shape(w) && InOrder(w)
    ensures InOrder(Step(w, Began))
  {
    hide Precedes, FirstPending;
    var f := FirstPending(w.items, 0);
    if w.inFlight.None? && f < |w.items| {
      assert Ids(w.items)[..f + 1] == Ids(w.items)[..f] + [Ids(w.items)[f]];
    }
  }

  lemma InOrderFinished(w: World, e: Event)
    requires Shape(w) && InOrder(w) && e.Finished?
    ensures InOrder(Step(w, e))
  {
    hide Precedes, FirstPending, Settled;
    if w.inFlight.Some? {
      var f := FirstPending(w.items, 0);
      GoodSettle(w.items, w.log, e.outcome, e.now);
      assert Ids(Settled(w.items, w.items[f].id, e.outcome, e.now)) == Ids(w.items);
    }
  }

  lemma {:induction false} InOrderRun(events: seq<Event>)
    requires IsRun(events) && Restarted !in events
    ensures InOrder(After(events))
  {
    if events != [] {
      var front := events[..|events| - 1];
      var w, e := After(front), events[|events| - 1];
      assert forall i :: 0 <= i < |front| ==> front[i] == events[i];
      InOrderRun(front);
      RunsKeepInv(front);
      hide InOrder, Shape, Paid;
      match e {
        case Enqueued(_, _, _, _, _) => InOrderEnqueued(w, e);
        case Began => InOrderBegan(w);
        case Finished(_, _, _) => InOrderFinished(w, e);
      }
    }
  }

  /** Until the process restarts, submissions follow enqueue order and none is repeated, whatever writes fail. */
  lemma {:induction false} InOrderOnce(events: seq<Event>)
    requires IsRun(events) && Restarted !in events
    ensures InOrder(After(events)) && DistinctIds(After(events).items)
  {
    RunsKeepInv(events);
    InOrderRun(events);
  }

  // ------------------------------------------------------------------
  // Order across restarts, when every change was written
  // ------------------------------------------------------------------

  ghost predicate InQueueOrder(attempts: seq<string>, items: seq<Item>) {
    forall i, j :: 0 <= i <= j < |attempts| ==> Find(items, attempts[i], 0) <= Find(items, attempts[j], 0)
  }

  /** Submitted items are in the queue, none of them behind the first pending one. */
  ghost predicate SubmittedUpTo(attempts: seq<string>, items: seq<Item>) {
    forall a :: a in attempts ==> Find(items, a, 0) < |items| && Find(items, a, 0) <= FirstPending(items, 0)
  }

  ghost predicate Synced(w: World) {
    && ItemsOn(w.disk) == w.items
    && InQueueOrder(w.log.attempts, w.items)
    && SubmittedUpTo(w.log.attempts, w.items)
  }

  /** Ids keep their positions when the queue is extended or an item changes in place. */
  lemma {:induction false} FindStays(items: seq<Item>, items': seq<Item>, id: string, i: nat)
    requires |items| <= |items'| && forall j :: 0 <= j < |items| ==> items[j].id == items'[j].id
    requires i <= |items| && Find(items, id, i) < |items|
    ensures Find(items', id, i) == Find(items, id, i)
    decreases |items| - i
  {
    if i < |items| && items[i].id != id {
      FindStays(items, items', id, i + 1);
    }
  }

  lemma OrderStays(attempts: seq<string>, items: seq<Item>, items': seq<Item>)
    requires |items| <= |items'| && forall j :: 0 <= j < |items| ==> items[j].id == items'[j].id
    requires FirstPending(items, 0) <= FirstPending(items', 0)
    requires InQueueOrder(attempts, items) && SubmittedUpTo(attempts, items)
    ensures InQueueOrder(attempts, items') && SubmittedUpTo(attempts, items')
  {
    hide Find, FirstPending;
    forall a | a in attempts ensures Find(items', a, 0) == Find(items, a, 0) {
      FindStays(items, items', a, 0);
    }
  }

  lemma SyncedBegan(w: World)
    requires Inv(w) && Synced(w)
    ensures Synced(Step(w, Began))
  {
    hide Retries, Precedes, Paid;
    var f := FirstPending(w.items, 0);
    if w.inFlight.None? && f < |w.items| {
      FindAt(w.items, f, 0);
      hide Find;
      forall i | 0 <= i < |w.log.attempts| ensures Find(w.items, w.log.attempts[i], 0) <= f {
        assert w.log.attempts[i] in w.log.attempts;
      }
    }
  }

  lemma SyncedStep(w: World, e: Event)
    requires Inv(w) && Synced(w) && Enabled(w, e) && Step(w, e).log.lost == 0
    ensures Synced(Step(w, e))
  {
    hide Retries, Precedes, Paid, Find, FirstPending, InQueueOrder, SubmittedUpTo, Settled;
    match e {
      case Enqueued(id, kind, payload, now, _) =>
        GoodAppend(w.items, w.log, e);
        OrderStays(w.log.attempts, w.items, w.items + [NewItem(id, kind, payload, now)]);
      case Began => SyncedBegan(w);
      case Finished(outcome, now, _) =>
        if w.inFlight.Some? {
          GoodSettle(w.items, w.log, outcome, now);
          OrderStays(w.log.attempts, w.items, Settled(w.items, w.inFlight.value, outcome, now));
        }
      case Restarted =>
    }
  }

  lemma LostNeverFalls(w: World, e: Event)
    ensures w.log.lost <= Step(w, e).log.lost
  {
  }

  /** As long as every change was written, attempts follow enqueue order across restarts too. */
  lemma {:induction false} WrittenRunsStayInOrder(events: seq<Event>)
    requires IsRun(events) && After(events).log.lost == 0
    ensures Synced(After(events))
  {
    if events != [] {
      var front := events[..|events| - 1];
      LostNeverFalls(After(front), events[|events| - 1]);
      WrittenRunsStayInOrder(front);
      RunsKeepInv(front);
      SyncedStep(After(front), events[|events| - 1]);
    }
  }

  // ------------------------------------------------------------------
  // What a restart brings back
  // ------------------------------------------------------------------

  /** The last change of the queue was not written. */
  predicate Unsaved(events: seq<Event>) {
    if events == [] then false
    else
      var front := events[..|events| - 1];
      match events[|events| - 1]
      case Enqueued(_, _, _, _, write) => !write.Written?
      case Began => Unsaved(front)
      case Finished(_, _, write) => if After(front).inFlight.None? then Unsaved(front) else !write.Written?
      case Restarted => false
  }

  /** Every change makes the queue longer or its finished prefix longer. */
  function Weight(items: seq<Item>): nat {
    |items| + FirstPending(items, 0)
  }

  ghost predicate Behind(w: World, unsaved: bool) {
    if unsaved then Weight(ItemsOn(w.disk)) < Weight(w.items) else ItemsOn(w.disk) == w.items
  }

  lemma AppendIsBehind(w: World, e: Event, unsaved: bool)
    requires Shape(w) && e.Enqueued? && Enabled(w, e) && Behind(w, unsaved)
    ensures Behind(Step(w, e), !e.write.Written?)
  {
    hide FirstPending, Precedes;
    GoodAppend(w.items, w.log, e);
    FirstPendingAt([], 0, 0);
  }

  lemma SettleIsBehind(w: World, e: Event, unsaved: bool)
    requires Shape(w) && e.Finished? && w.inFlight.Some? && Behind(w, unsaved)
    ensures Behind(Step(w, e), !e.write.Written?)
  {
    hide FirstPending, Precedes, Settled, Find;
    GoodSettle(w.items, w.log, e.outcome, e.now);
    FirstPendingAt([], 0, 0);
  }

  lemma BeganIsBehind(w: World, unsaved: bool)
    requires Behind(w, unsaved)
    ensures Behind(Step(w, Began), unsaved)
  {
  }

  lemma RestartIsLevel(w: World)
    ensures Behind(Step(w, Restarted), false)
  {
  }

  lemma {:induction false} UnsavedIsBehind(events: seq<Event>)
    requires IsRun(events)
    ensures Behind(After(events), Unsaved(events))
  {
    if events != [] {
      var front := events[..|events| - 1];
      var w, e := After(front), events[|events| - 1];
      UnsavedIsBehind(front);
      RunsKeepInv(front);
      hide Behind, Shape, Paid;
      match e {
        case Enqueued(_, _, _, _, _) => AppendIsBehind(w, e, Unsaved(front));
        case Began => BeganIsBehind(w, Unsaved(front));
        case Finished(_, _, _) =>
          if w.inFlight.Some? {
            SettleIsBehind(w, e, Unsaved(front));
          }
        case Restarted => RestartIsLevel(w);
      }
    }
  }

  /** A restart brings back exactly the queue as it was if and only if its last change was written. */
  lemma RestartRestoresIff(events: seq<Event>)
    requires IsRun(events)
    ensures Step(After(events), Restarted).items == After(events).items <==> !Unsaved(events)
  {
    UnsavedIsBehind(events);
  }

  // ------------------------------------------------------------------
  // Outcomes
  // ------------------------------------------------------------------

  /** From w to w', item k took this outcome, and nothing else in the queue changed. */
  ghost predicate TookOutcome(w: World, w': World, k: nat, outcome: Outcome, now: nat) {
    && k < |w.items| == |w'.items|
    && (forall i :: 0 <= i < |w.items| && i != k ==> w'.items[i] == w.items[i])
    && match outcome
       case Accepted(txId) =>
         w'.items[k] == w.items[k].(status := Submitted, submittedAt := Some(now), txId := Some(txId))
       case Rejected(error) => w'.items[k] == w.items[k].(status := Failed, error := Some(error))
  }

  lemma FirstTakesOutcome(w: World, outcome: Outcome, now: nat, write: Write)
    requires Shape(w) && w.inFlight.Some?
    ensures TookOutcome(w, Step(w, Finished(outcome, now, write)), FirstPending(w.items, 0), outcome, now)
  {
    FindAt(w.items, FirstPending(w.items, 0), 0);
    hide FirstPending, Find, Good, Precedes;
  }

  /** An outcome is recorded on the item that was submitted, which was pending until then, and on no other. */
  lemma OutcomeGoesToSubmitted(events: seq<Event>, outcome: Outcome, now: nat, write: Write) returns (k: nat)
    requires IsRun(events) && After(events).inFlight.Some?
    ensures var w, w' := After(events), Step(After(events), Finished(outcome, now, write));
            && k < |w.items| && w.items[k].id == w.inFlight.value && w.items[k].status == Pending
            && w.items[k].id in w.log.attempts
            && TookOutcome(w, w', k, outcome, now)
            && w'.disk == AfterWrite(w.disk, w'.items, write)
  {
    RunsKeepInv(events);
    var w := After(events);
    k := FirstPending(w.items, 0);
    FirstTakesOutcome(w, outcome, now, write);
    PendingAfter(w.items, w.log);
    GoodSettle(w.items, w.log, outcome, now);
    hide FirstPending, Find, Good, Precedes, Paid, TookOutcome, After, IsRun, Settled;
  }

  /** Item i has its outcome, in memory and on file. */
  ghost predicate Final(w: World, i: nat, item: Item) {
    && item.status != Pending
    && i < |w.items| && w.items[i] == item
    && i < |ItemsOn(w.disk)| && ItemsOn(w.disk)[i] == item
  }

  predicate Tears(e: Event) {
    (e.Enqueued? || e.Finished?) && e.write.Torn?
  }

  lemma FinalStep(w: World, e: Event, i: nat, item: Item)
    requires Inv(w) && Enabled(w, e) && !Tears(e) && Final(w, i, item)
    ensures Final(Step(w, e), i, item)
  {
    hide Retries, Paid, Find, FirstPending, Settled;
    if e.Finished? && w.inFlight.Some? {
      GoodSettle(w.items, w.log, e.outcome, e.now);
    }
  }

  lemma FinalStart(w: World, i: nat)
    requires Shape(w) && i < |ItemsOn(w.disk)| && ItemsOn(w.disk)[i].status != Pending
    ensures Final(w, i, ItemsOn(w.disk)[i])
  {
    hide FirstPending, Good;
  }

  /**
   * An outcome on file is final: however the run goes on, restarts and refused writes included, the item never
   * changes again, in memory or on file, unless a write tears the file.
   */
  lemma {:induction false} OutcomesAreFinal(events: seq<Event>, more: seq<Event>, i: nat)
    requires IsRun(events) && IsRun(events + more) && forall e :: e in more ==> !Tears(e)
    requires i < |ItemsOn(After(events).disk)| && ItemsOn(After(events).disk)[i].status != Pending
    ensures Final(After(events + more), i, ItemsOn(After(events).disk)[i])
    decreases |more|
  {
    hide Shape, Paid, Final, Tears, ItemsOn;
    if more == [] {
      assert events + more == events;
      RunsKeepInv(events);
      FinalStart(After(events), i);
    } else {
      var n := |more| - 1;
      assert (events + more)[..|events + more| - 1] == events + more[..n];
      assert more[n] in more && forall e :: e in more[..n] ==> e in more;
      OutcomesAreFinal(events, more[..n], i);
      RunsKeepInv(events + more[..n]);
      FinalStep(After(events + more[..n]), more[n], i, ItemsOn(After(events).disk)[i]);
    }
  }

  /** On file, the item in flight is pending, if it is there at all. */
  lemma InFlightOnFile(w: World)
    requires Shape(w) && w.inFlight.Some?
    ensures forall i :: 0 <= i < |ItemsOn(w.disk)| && ItemsOn(w.disk)[i].id == w.inFlight.value ==>
              ItemsOn(w.disk)[i].status == Pending
  {
    hide FirstPending;
    PendingAfter(w.items, w.log);
  }

  lemma RestartForgets(w: World, outcome: Outcome, now: nat, write: Write)
    requires Shape(w) && w.inFlight.Some? && !write.Written?
    ensures var w' := Step(Step(w, Finished(outcome, now, write)), Restarted);
            && (w'.items == ItemsOn(w.disk) || w'.items == [])
            && forall i :: 0 <= i < |w'.items| && w'.items[i].id == w.inFlight.value ==> w'.items[i].status == Pending
  {
    InFlightOnFile(w);
    hide Shape, Settled, Find;
  }

  /** ...and only such an outcome: one that was not written is undone by the next restart. */
  lemma UnwrittenOutcomeReverts(events: seq<Event>, outcome: Outcome, now: nat, write: Write)
    requires IsRun(events) && After(events).inFlight.Some? && !write.Written?
    ensures var id := After(events).inFlight.value;
            var w := Step(Step(After(events), Finished(outcome, now, write)), Restarted);
            forall i :: 0 <= i < |w.items| && w.items[i].id == id ==> w.items[i].status == Pending
  {
    RunsKeepInv(events);
    RestartForgets(After(events), outcome, now, write);
  }

  // ------------------------------------------------------------------
  // Where items come from
  // ------------------------------------------------------------------

  /** The item carries what this enqueue was given. */
  predicate Carries(item: Item, e: Event) {
    e.Enqueued? && item.id == e.id && item.kind == e.kind && item.payload == e.payload && item.createdAt == e.now
  }

  ghost predicate IsFrom(item: Item, events: seq<Event>) {
    exists e :: e in events && Carries(item, e)
  }

  ghost predicate AllFrom(items: seq<Item>, events: seq<Event>) {
    forall i :: 0 <= i < |items| ==> IsFrom(items[i], events)
  }

  lemma AllFromMore(items: seq<Item>, events: seq<Event>, e: Event)
    requires AllFrom(items, events)
    ensures AllFrom(items, events + [e])
  {
    forall i | 0 <= i < |items| ensures IsFrom(items[i], events + [e]) {
      assert IsFrom(items[i], events);
      var e' :| e' in events && Carries(items[i], e');
      assert e' in events + [e];
    }
  }

  lemma AppendedIsFrom(items: seq<Item>, events: seq<Event>, e: Event)
    requires AllFrom(items, events) && e.Enqueued?
    ensures AllFrom(items + [NewItem(e.id, e.kind, e.payload, e.now)], events + [e])
  {
    AllFromMore(items, events, e);
    var item := NewItem(e.id, e.kind, e.payload, e.now);
    assert e in events + [e] && Carries(item, e);
    assert IsFrom(item, events + [e]);
  }

  lemma SettledIsFrom(items: seq<Item>, events: seq<Event>, id: string, outcome: Outcome, now: nat)
    requires AllFrom(items, events)
    ensures AllFrom(Settled(items, id, outcome, now), events)
  {
    var k, settled := Find(items, id, 0), Settled(items, id, outcome, now);
    hide Find;
    forall i | 0 <= i < |settled| ensures IsFrom(settled[i], events) {
      assert IsFrom(items[i], events);
      var e :| e in events && Carries(items[i], e);
      assert Carries(settled[i], e);
    }
  }

  /** In every run, each item in memory and on file is one that was enqueued, with its kind, payload and time. */
  lemma {:induction false} ItemsWereEnqueued(events: seq<Event>)
    ensures AllFrom(After(events).items, events) && AllFrom(ItemsOn(After(events).disk), events)
  {
    if events != [] {
      var front, e := events[..|events| - 1], events[|events| - 1];
      var w := After(front);
      ItemsWereEnqueued(front);
      assert events == front + [e];
      AllFromMore(w.items, front, e);
      AllFromMore(ItemsOn(w.disk), front, e);
      match e {
        case Enqueued(_, _, _, _, _) => AppendedIsFrom(w.items, front, e);
        case Finished(outcome, now, _) =>
          if w.inFlight.Some? {
            SettledIsFrom(w.items, events, w.inFlight.value, outcome, now);
          }
        case _ =>
      }
      assert AllFrom([], events);
      hide AllFrom, Settled, Find, FirstPending;
    }
  }

  ghost predicate Kept(events: seq<Event>, items: seq<Item>) {
    forall e :: e in events && e.Enqueued? ==> exists i :: 0 <= i < |items| && Carries(items[i], e)
  }

  lemma StepKeepsItems(w: World, e: Event)
    requires Shape(w) && (!e.Restarted? || ItemsOn(w.disk) == w.items)
    ensures var w' := Step(w, e);
            && |w.items| <= |w'.items|
            && forall i, e' :: 0 <= i < |w.items| && Carries(w.items[i], e') ==> Carries(w'.items[i], e')
    ensures e.Enqueued? ==> Step(w, e).items == w.items + [NewItem(e.id, e.kind, e.payload, e.now)]
  {
    if e.Finished? && w.inFlight.Some? {
      FindAt(w.items, FirstPending(w.items, 0), 0);
    }
    hide Find, FirstPending, Good, Precedes;
  }

  lemma KeptStep(events: seq<Event>, e: Event)
    requires Inv(After(events)) && Kept(events, After(events).items)
    requires !e.Restarted? || ItemsOn(After(events).disk) == After(events).items
    ensures Kept(events + [e], Step(After(events), e).items)
  {
    var w, w' := After(events), Step(After(events), e);
    StepKeepsItems(w, e);
    hide Shape, Paid, Step, After;
    forall e' | e' in events + [e] && e'.Enqueued? ensures exists i :: 0 <= i < |w'.items| && Carries(w'.items[i], e') {
      if e' in events {
        var i :| 0 <= i < |w.items| && Carries(w.items[i], e');
        assert Carries(w'.items[i], e');
      } else {
        assert Carries(w'.items[|w.items|], e');
      }
    }
  }

  /** No accepted transaction is dropped while the process runs, and none at all while every change is written. */
  lemma {:induction false} EnqueuedAreKept(events: seq<Event>)
    requires IsRun(events) && (Restarted !in events || After(events).log.lost == 0)
    ensures Kept(events, After(events).items)
  {
    if events != [] {
      var front, e := events[..|events| - 1], events[|events| - 1];
      assert events == front + [e];
      LostNeverFalls(After(front), e);
      assert Restarted !in events ==> Restarted !in front;
      EnqueuedAreKept(front);
      RunsKeepInv(front);
      if e.Restarted? {
        WrittenRunsStayInOrder(front);
      }
      KeptStep(front, e);
    }
  }

  /** One more pending item counts once, under its own kind. */
  lemma EnqueueCounts(items: seq<Item>, id: string, kind: Kind, payload: string, now: nat, counted: Kind)
    ensures Pendings(items + [NewItem(id, kind, payload, now)], counted)
            == Pendings(items, counted) + if kind == counted then 1 else 0
  {
    var item := NewItem(id, kind, payload, now);
    assert (items + [item])[..|items|] == items;
  }

  /** The two counts together are the pending items. */
  lemma {:induction false} PendingsAddUp(items: seq<Item>, f: nat)
    requires SplitsAt(items, f)
    ensures Pendings(items, Deposit) + Pendings(items, Withdrawal) == |items| - f
  {
    if items != [] {
      PendingsAddUp(items[..|items| - 1], if f == |items| then f - 1 else f);
    }
  }
}
