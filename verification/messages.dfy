/** The message table as the scheduled-dispatch route sees it, and the query
    that selects the due batch (the `findMany` call of
    app/api/cron/send-scheduled/route.ts). */
module Messages {
  import opened Wrappers

  type Id = string

  /** `Message.status`; `pending` is the only state the dispatch route acts on. */
  datatype Status = Pending | Sent | Failed

  /** The sending user, as the query's `include: { user: { email, name } }` returns it. */
  datatype Owner = Owner(email: string, name: Option<string>)

  /** One row of the message table, joined with its owner. */
  datatype Message = Message(
    id: Id,
    owner: Owner,
    recipientEmail: string,
    recipientName: Option<string>,
    subject: string,
    body: string,
    scheduledAt: int,
    status: Status,
    sentAt: Option<int>)

  /** The table, keyed by primary key. */
  type Store = map<Id, Message>

  /** Every row is stored under its own id. */
  predicate WellKeyed(store: Store) {
    forall id :: id in store ==> store[id].id == id
  }

  /** The order in which the database hands back rows of the table: every
      stored id exactly once. The query has no `orderBy`, so this order is an
      input of the model rather than something it computes. */
  predicate IsScanOrder(store: Store, order: seq<Id>) {
    && (forall i, j :: 0 <= i < j < |order| ==> order[i] != order[j])
    && (forall i :: 0 <= i < |order| ==> order[i] in store)
    && (forall id :: id in store ==> id in order)
  }

  /** The `where` clause: still pending and scheduled at or before `now`. */
  predicate Due(m: Message, now: int) {
    m.status == Pending && m.scheduledAt <= now
  }

  /** `take: 50`. */
  const BatchLimit: nat := 50

  /** The ids of all due rows. */
  function DueIds(store: Store, now: int): set<Id> {
    set id | id in store && Due(store[id], now)
  }

  predicate DistinctIds(batch: seq<Message>) {
    forall i, j :: 0 <= i < j < |batch| ==> batch[i].id != batch[j].id
  }

  /** The ids of a batch. */
  function Ids(batch: seq<Message>): set<Id> {
    set i | 0 <= i < |batch| :: batch[i].id
  }

  /** The due rows in scan order, before the cap. */
  function DueInOrder(store: Store, now: int, order: seq<Id>): (due: seq<Message>)
    requires WellKeyed(store)
    requires forall i :: 0 <= i < |order| ==> order[i] in store
    ensures |due| <= |order|
    ensures forall k :: 0 <= k < |due| ==> Due(due[k], now)
    ensures forall k :: 0 <= k < |due| ==> due[k].id in store && due[k] == store[due[k].id]
    ensures forall k :: 0 <= k < |due| ==> due[k].id in order
  {
    if order == [] then []
    else
      var rest := DueInOrder(store, now, order[1..]);
      assert forall k :: 0 <= k < |rest| ==> rest[k].id in order[1..];
      if Due(store[order[0]], now) then [store[order[0]]] + rest else rest
  }

  /** The batch the query returns: the first `BatchLimit` due rows in scan order. */
  function SelectDue(store: Store, now: int, order: seq<Id>): (batch: seq<Message>)
    requires WellKeyed(store) && IsScanOrder(store, order)
    ensures |batch| <= BatchLimit
    ensures forall k :: 0 <= k < |batch| ==> Due(batch[k], now)
    ensures forall k :: 0 <= k < |batch| ==> batch[k].id in store && batch[k] == store[batch[k].id]
    ensures DistinctIds(batch)
    ensures |batch| == if |DueIds(store, now)| <= BatchLimit then |DueIds(store, now)| else BatchLimit
    ensures Ids(batch) <= DueIds(store, now)
    ensures |DueIds(store, now)| <= BatchLimit ==> Ids(batch) == DueIds(store, now)
  {
    var due := DueInOrder(store, now, order);
    DueInOrderDistinct(store, now, order);
    DueInOrderCount(store, now, order);
    var batch := if |due| <= BatchLimit then due else due[..BatchLimit];
    assert Ids(batch) <= DueIds(store, now);
    IdsCount(batch);
    if |DueIds(store, now)| <= BatchLimit then
      SubsetOfSameSize(Ids(batch), DueIds(store, now));
      batch
    else batch
  }

  lemma SubsetOfSameSize<T>(a: set<T>, b: set<T>)
    requires a <= b && |a| == |b|
    ensures a == b
  {
    assert b == a + (b - a);
    assert |b - a| == 0;
  }

  /** A batch with distinct ids has as many ids as messages. */
  lemma {:induction false} IdsCount(batch: seq<Message>)
    requires DistinctIds(batch)
    ensures |Ids(batch)| == |batch|
  {
    if batch != [] {
      var init := batch[..|batch| - 1];
      assert DistinctIds(init);
      IdsCount(init);
      IdsSnoc(init, batch[|batch| - 1]);
      assert init + [batch[|batch| - 1]] == batch;
      LastIdFresh(batch);
    }
  }

  /** In a batch with distinct ids the last id does not occur before it. */
  lemma LastIdFresh(batch: seq<Message>)
    requires DistinctIds(batch) && batch != []
    ensures batch[|batch| - 1].id !in Ids(batch[..|batch| - 1])
  {
    var init := batch[..|batch| - 1];
    forall i | 0 <= i < |init|
      ensures init[i].id != batch[|batch| - 1].id
    {
      assert init[i] == batch[i];
    }
  }

  /** The ids of a batch grown by one message. */
  lemma IdsSnoc(batch: seq<Message>, m: Message)
    ensures Ids(batch + [m]) == Ids(batch) + {m.id}
  {
    var b := batch + [m];
    forall id | id in Ids(b) ensures id in Ids(batch) + {m.id} {
      var i :| 0 <= i < |b| && b[i].id == id;
      if i < |batch| { assert batch[i].id == id; }
    }
    forall id | id in Ids(batch) ensures id in Ids(b) {
      var i :| 0 <= i < |batch| && batch[i].id == id;
      assert b[i].id == id;
    }
    assert b[|batch|].id == m.id;
  }

  /** Distinct ids in the scan order give distinct ids in the filtered rows. */
  lemma {:induction false} DueInOrderDistinct(store: Store, now: int, order: seq<Id>)
    requires WellKeyed(store)
    requires forall i :: 0 <= i < |order| ==> order[i] in store
    requires forall i, j :: 0 <= i < j < |order| ==> order[i] != order[j]
    ensures DistinctIds(DueInOrder(store, now, order))
  {
    if order != [] {
      DueInOrderDistinct(store, now, order[1..]);
      var rest := DueInOrder(store, now, order[1..]);
      assert forall k :: 0 <= k < |rest| ==> rest[k].id != order[0] by {
        forall k | 0 <= k < |rest|
          ensures rest[k].id != order[0]
        {
          var i :| 0 <= i < |order[1..]| && order[1..][i] == rest[k].id;
          assert order[i + 1] == rest[k].id;
        }
      }
    }
  }

  /** The ids of `order` whose rows are due. */
  function DueAmong(store: Store, now: int, order: seq<Id>): set<Id>
    requires forall i :: 0 <= i < |order| ==> order[i] in store
  {
    set i | 0 <= i < |order| && Due(store[order[i]], now) :: order[i]
  }

  /** Filtering the scan order finds every due row exactly once. */
  lemma DueInOrderCount(store: Store, now: int, order: seq<Id>)
    requires WellKeyed(store) && IsScanOrder(store, order)
    ensures |DueInOrder(store, now, order)| == |DueIds(store, now)|
  {
    DueAmongCount(store, now, order);
    assert DueAmong(store, now, order) == DueIds(store, now) by {
      forall id | id in DueIds(store, now)
        ensures id in DueAmong(store, now, order)
      {
        var i :| 0 <= i < |order| && order[i] == id;
      }
    }
  }

  lemma {:induction false} DueAmongCount(store: Store, now: int, order: seq<Id>)
    requires WellKeyed(store)
    requires forall i :: 0 <= i < |order| ==> order[i] in store
    requires forall i, j :: 0 <= i < j < |order| ==> order[i] != order[j]
    ensures |DueInOrder(store, now, order)| == |DueAmong(store, now, order)|
  {
    if order != [] {
      var tail := order[1..];
      DueAmongCount(store, now, tail);
      DueAmongCons(store, now, order);
      HeadNotInTail(store, now, order);
    }
  }

  /** The due ids of a scan order: those of its tail, plus its head when due. */
  lemma DueAmongCons(store: Store, now: int, order: seq<Id>)
    requires order != [] && forall i :: 0 <= i < |order| ==> order[i] in store
    ensures DueAmong(store, now, order)
            == (if Due(store[order[0]], now) then {order[0]} else {}) + DueAmong(store, now, order[1..])
  {
    var tail := order[1..];
    var here := if Due(store[order[0]], now) then {order[0]} else {};
    forall id | id in DueAmong(store, now, order)
      ensures id in here + DueAmong(store, now, tail)
    {
      var i :| 0 <= i < |order| && Due(store[order[i]], now) && order[i] == id;
      if i > 0 {
        assert tail[i - 1] == id;
      }
    }
    forall id | id in DueAmong(store, now, tail)
      ensures id in DueAmong(store, now, order)
    {
      var i :| 0 <= i < |tail| && Due(store[tail[i]], now) && tail[i] == id;
      assert order[i + 1] == id;
    }
  }

  /** In a duplicate-free scan order the head is not among the tail's ids. */
  lemma HeadNotInTail(store: Store, now: int, order: seq<Id>)
    requires order != [] && forall i :: 0 <= i < |order| ==> order[i] in store
    requires forall i, j :: 0 <= i < j < |order| ==> order[i] != order[j]
    ensures order[0] !in DueAmong(store, now, order[1..])
  {
    var tail := order[1..];
    forall i | 0 <= i < |tail|
      ensures tail[i] != order[0]
    {
      assert tail[i] == order[i + 1];
    }
  }
}
