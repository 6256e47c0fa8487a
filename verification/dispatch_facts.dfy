/** What one dispatch cycle does, stated without the loop: closed-form
    descriptions of the table, the report and the send requests after a
    cycle, and the invariants every cycle keeps. */
module DispatchFacts {
  import opened Wrappers
  import opened Messages
  import opened Dispatch

  // ---------------------------------------------------------------------------
  // Reference definitions

  /** A batch message once its iteration has completed without aborting. */
  function Settle(m: Message, fx: Effects): Message {
    if Delivers(fx) then m.(status := Sent, sentAt := Some(fx.clock)) else m.(status := Failed)
  }

  /** The table once every message of `batch` has been settled, and no other row touched. */
  function Expected(store: Store, batch: seq<Message>, effects: Id -> Effects): Store {
    map id | id in store :: if id in Ids(batch) then Settle(store[id], effects(id)) else store[id]
  }

  /** How many messages of `batch` are delivered. */
  function DeliveredCount(batch: seq<Message>, effects: Id -> Effects): (n: nat)
    ensures n <= |batch|
    decreases |batch|
  {
    if batch == [] then 0
    else
      var last := batch[|batch| - 1];
      DeliveredCount(batch[..|batch| - 1], effects) + (if Delivers(effects(last.id)) then 1 else 0)
  }

  /** The error lines of the undelivered messages of `batch`, in batch order. */
  function ErrorLines(batch: seq<Message>, effects: Id -> Effects): (lines: seq<string>)
    decreases |batch|
  {
    if batch == [] then []
    else
      var last := batch[|batch| - 1];
      var fx := effects(last.id);
      ErrorLines(batch[..|batch| - 1], effects)
      + (if Delivers(fx) then [] else [ErrorLine(last.id, CaughtCause(fx))])
  }

  /** One send request per batch message, in batch order. */
  function Requests(batch: seq<Message>): (r: seq<SendRequest>)
    ensures |r| == |batch|
    ensures forall i :: 0 <= i < |batch| ==> r[i] == RequestFor(batch[i])
  {
    seq(|batch|, i requires 0 <= i < |batch| => RequestFor(batch[i]))
  }

  predicate NoAbort(batch: seq<Message>, effects: Id -> Effects) {
    forall k :: 0 <= k < |batch| ==> !Aborts(effects(batch[k].id))
  }

  /** Message `k` is the first of the batch whose `failed` write throws. */
  predicate FirstAbortAt(batch: seq<Message>, effects: Id -> Effects, k: nat) {
    k < |batch| && Aborts(effects(batch[k].id)) && NoAbort(batch[..k], effects)
  }

  // ---------------------------------------------------------------------------
  // The loop

  lemma ExpectedEmpty(store: Store, effects: Id -> Effects)
    ensures Expected(store, [], effects) == store
  {
  }

  /** Settling one more message changes exactly its row. */
  lemma ExpectedSnoc(store: Store, batch: seq<Message>, m: Message, effects: Id -> Effects)
    requires m.id !in Ids(batch)
    ensures m.id in store ==>
      Expected(store, batch + [m], effects)
      == Expected(store, batch, effects)[m.id := Settle(store[m.id], effects(m.id))]
    ensures m.id !in store ==> Expected(store, batch + [m], effects) == Expected(store, batch, effects)
  {
    IdsSnoc(batch, m);
  }

  lemma StepDelivered(store: Store, batch: seq<Message>, m: Message, effects: Id -> Effects)
    requires m.id !in Ids(batch) && Delivers(effects(m.id))
    ensures MarkSent(Expected(store, batch, effects), m.id, effects(m.id).clock)
            == Expected(store, batch + [m], effects)
  {
    ExpectedSnoc(store, batch, m, effects);
  }

  lemma StepRecorded(store: Store, batch: seq<Message>, m: Message, effects: Id -> Effects)
    requires m.id !in Ids(batch) && !Delivers(effects(m.id))
    ensures MarkFailed(Expected(store, batch, effects), m.id) == Expected(store, batch + [m], effects)
  {
    ExpectedSnoc(store, batch, m, effects);
  }

  /** The loop state once `batch` has been processed without an abort. */
  function AfterBatch(store: Store, total: nat, batch: seq<Message>, effects: Id -> Effects): Progress {
    Progress(Expected(store, batch, effects),
             Report(total, DeliveredCount(batch, effects), |batch| - DeliveredCount(batch, effects),
                    ErrorLines(batch, effects)),
             Requests(batch))
  }

  /** A loop in which no `failed` write throws runs to the end: the table is
      the settled table, the report counts every message once as sent or
      failed with one error line per failure, and every message got exactly
      one send request, in batch order. */
  lemma {:induction false} RunWithoutAbort(store: Store, total: nat, batch: seq<Message>, effects: Id -> Effects)
    requires DistinctIds(batch) && NoAbort(batch, effects)
    ensures Run(store, total, batch, effects) == Finished(AfterBatch(store, total, batch, effects))
    decreases |batch|
  {
    if batch == [] {
      ExpectedEmpty(store, effects);
    } else {
      var n := |batch|;
      var init, m := batch[..n - 1], batch[n - 1];
      assert batch == init + [m];
      assert DistinctIds(init) && NoAbort(init, effects);
      RunWithoutAbort(store, total, init, effects);
      LastIdFresh(batch);
      assert !Aborts(effects(batch[n - 1].id));
      RunSnoc(store, total, init, m, effects);
    }
  }

  /** One more iteration that does not abort moves the loop state from the
      closed form of `batch` to that of `batch + [m]`. */
  lemma RunSnoc(store: Store, total: nat, batch: seq<Message>, m: Message, effects: Id -> Effects)
    requires m.id !in Ids(batch) && !Aborts(effects(m.id))
    requires Run(store, total, batch, effects) == Finished(AfterBatch(store, total, batch, effects))
    ensures Run(store, total, batch + [m], effects) == Finished(AfterBatch(store, total, batch + [m], effects))
  {
    var b := batch + [m];
    assert b[..|b| - 1] == batch && b[|b| - 1] == m;
    assert Run(store, total, b, effects) == Step(AfterBatch(store, total, batch, effects), m, effects(m.id));
    StepAfterBatch(store, total, batch, m, effects);
  }

  /** The step that follows the closed form of `batch` gives the closed form of `batch + [m]`. */
  lemma StepAfterBatch(store: Store, total: nat, batch: seq<Message>, m: Message, effects: Id -> Effects)
    requires m.id !in Ids(batch) && !Aborts(effects(m.id))
    ensures Step(AfterBatch(store, total, batch, effects), m, effects(m.id))
            == Finished(AfterBatch(store, total, batch + [m], effects))
  {
    var b := batch + [m];
    assert b[..|b| - 1] == batch && b[|b| - 1] == m;
    assert Requests(batch) + [RequestFor(m)] == Requests(b);
    if Delivers(effects(m.id)) {
      StepDelivered(store, batch, m, effects);
    } else {
      StepRecorded(store, batch, m, effects);
    }
  }

  /** The loop result when message `k` is the first whose `failed` write throws. */
  function AbortEnd(store: Store, batch: seq<Message>, effects: Id -> Effects, k: nat): LoopEnd
    requires k < |batch| && Aborts(effects(batch[k].id))
  {
    Aborted(Expected(store, batch[..k], effects), CauseText(effects(batch[k].id).markFailed.cause),
            Requests(batch[..k + 1]))
  }

  /** A loop whose message `k` is the first with a throwing `failed` write
      stops there: the writes of the messages before it stay committed,
      message `k` itself is left as it was, and `k + 1` sends were made. */
  lemma {:induction false} RunAbortsAt(store: Store, total: nat, batch: seq<Message>, effects: Id -> Effects, k: nat)
    requires DistinctIds(batch) && FirstAbortAt(batch, effects, k)
    ensures Run(store, total, batch, effects) == AbortEnd(store, batch, effects, k)
    decreases |batch|
  {
    var n := |batch|;
    var init := batch[..n - 1];
    if n == k + 1 {
      AbortAtLast(store, total, batch, effects, k);
    } else {
      AbortBeforeLast(batch, effects, k);
      RunAbortsAt(store, total, init, effects, k);
      AbortEndOfPrefix(store, batch, effects, k);
      AbortCarries(store, total, batch, effects);
    }
  }

  /** The abort at the last message of the batch. */
  lemma AbortAtLast(store: Store, total: nat, batch: seq<Message>, effects: Id -> Effects, k: nat)
    requires DistinctIds(batch) && FirstAbortAt(batch, effects, k) && |batch| == k + 1
    ensures Run(store, total, batch, effects) == AbortEnd(store, batch, effects, k)
  {
    var init := batch[..k];
    assert batch[..|batch| - 1] == init;
    DistinctPrefix(batch, k);
    RunWithoutAbort(store, total, init, effects);
    RequestsSnoc(batch, k);
  }

  lemma DistinctPrefix(batch: seq<Message>, k: nat)
    requires DistinctIds(batch) && k <= |batch|
    ensures DistinctIds(batch[..k])
  {
    forall i, j | 0 <= i < j < k ensures batch[..k][i].id != batch[..k][j].id {
      assert batch[..k][i] == batch[i] && batch[..k][j] == batch[j];
    }
  }

  /** The send requests of a prefix grown by one message. */
  lemma RequestsSnoc(batch: seq<Message>, k: nat)
    requires k < |batch|
    ensures Requests(batch[..k]) + [RequestFor(batch[k])] == Requests(batch[..k + 1])
  {
    var a, b := Requests(batch[..k]) + [RequestFor(batch[k])], Requests(batch[..k + 1]);
    forall i | 0 <= i <= k ensures a[i] == b[i] {
      if i < k {
        assert batch[..k][i] == batch[i];
      }
      assert batch[..k + 1][i] == batch[i];
    }
  }

  /** An abort before the last message is also the first abort of the batch without its last message. */
  lemma AbortBeforeLast(batch: seq<Message>, effects: Id -> Effects, k: nat)
    requires DistinctIds(batch) && FirstAbortAt(batch, effects, k) && k + 1 < |batch|
    ensures DistinctIds(batch[..|batch| - 1]) && FirstAbortAt(batch[..|batch| - 1], effects, k)
  {
    var init := batch[..|batch| - 1];
    assert init[..k] == batch[..k] && init[k] == batch[k];
  }

  /** The abort result does not depend on the messages after `k`. */
  lemma AbortEndOfPrefix(store: Store, batch: seq<Message>, effects: Id -> Effects, k: nat)
    requires k + 1 < |batch| && Aborts(effects(batch[k].id))
    ensures AbortEnd(store, batch[..|batch| - 1], effects, k) == AbortEnd(store, batch, effects, k)
  {
    var init := batch[..|batch| - 1];
    assert init[..k] == batch[..k] && init[..k + 1] == batch[..k + 1] && init[k] == batch[k];
  }

  /** Once the loop has aborted, later messages change nothing. */
  lemma AbortCarries(store: Store, total: nat, batch: seq<Message>, effects: Id -> Effects)
    requires batch != []
    ensures var before := Run(store, total, batch[..|batch| - 1], effects);
            before.Aborted? ==> Run(store, total, batch, effects) == before
  {
  }

  // ---------------------------------------------------------------------------
  // The cycle

  /** A caller without the right header gets 401; the table is not read, no
      row changes and nothing is sent. */
  lemma UnauthorizedCycle(store: Store, order: seq<Id>, now: int, header: Option<string>,
                          secret: Option<string>, read: Attempt, effects: Id -> Effects)
    requires WellKeyed(store) && IsScanOrder(store, order)
    requires !Authorized(header, secret)
    ensures var c := Dispatch.Dispatch(store, order, now, header, secret, read, effects);
            c.response == Unauthorized && StatusCode(c.response) == 401
            && c.store == store && c.sends == [] && !c.queried
  {
  }

  /** A failing query answers 500 with the query's error and changes nothing. */
  lemma ReadFailureCycle(store: Store, order: seq<Id>, now: int, header: Option<string>,
                         secret: Option<string>, cause: Option<string>, effects: Id -> Effects)
    requires WellKeyed(store) && IsScanOrder(store, order)
    requires Authorized(header, secret)
    ensures var c := Dispatch.Dispatch(store, order, now, header, secret, Threw(cause), effects);
            c.response == ServerError(CauseText(cause)) && StatusCode(c.response) == 500
            && c.store == store && c.sends == []
  {
  }

  /** With no due message the cycle answers "No messages to send", sends
      nothing and writes nothing. */
  lemma NothingDueCycle(store: Store, order: seq<Id>, now: int, header: Option<string>,
                        secret: Option<string>, effects: Id -> Effects)
    requires WellKeyed(store) && IsScanOrder(store, order)
    requires Authorized(header, secret) && DueIds(store, now) == {}
    ensures var c := Dispatch.Dispatch(store, order, now, header, secret, Done, effects);
            c.response == NothingToSend && StatusCode(c.response) == 200
            && c.store == store && c.sends == []
  {
    assert |SelectDue(store, now, order)| == 0;
  }

  /** A cycle in which no `failed` write throws completes: every batch
      message is settled (sent with the clock reading as `sentAt`, or failed),
      the report counts each once, and each got exactly one send request, in
      batch order. */
  lemma CompletedCycle(store: Store, order: seq<Id>, now: int, header: Option<string>,
                       secret: Option<string>, effects: Id -> Effects)
    requires WellKeyed(store) && IsScanOrder(store, order)
    requires Authorized(header, secret)
    requires var batch := SelectDue(store, now, order); batch != [] && NoAbort(batch, effects)
    ensures var batch := SelectDue(store, now, order);
            var p := AfterBatch(store, |batch|, batch, effects);
            Dispatch.Dispatch(store, order, now, header, secret, Done, effects)
            == Cycle(p.store, Completed(p.report), p.sends, true)
  {
    var batch := SelectDue(store, now, order);
    RunWithoutAbort(store, |batch|, batch, effects);
    CycleOfFinished(store, order, now, header, secret, effects, AfterBatch(store, |batch|, batch, effects));
  }

  /** An authorised cycle whose loop finishes answers with the loop's report. */
  lemma CycleOfFinished(store: Store, order: seq<Id>, now: int, header: Option<string>,
                        secret: Option<string>, effects: Id -> Effects, p: Progress)
    requires WellKeyed(store) && IsScanOrder(store, order)
    requires Authorized(header, secret) && SelectDue(store, now, order) != []
    requires var batch := SelectDue(store, now, order);
             Run(store, |batch|, batch, effects) == Finished(p)
    ensures Dispatch.Dispatch(store, order, now, header, secret, Done, effects)
            == Cycle(p.store, Completed(p.report), p.sends, true)
  {
  }

  /** When the `failed` write of batch message `k` throws (and none before
      did), the cycle answers 500 with that write's error and no report; the
      rows of messages before `k` stay as written, all other rows are
      untouched, and `k + 1` sends were made. */
  lemma AbortedCycle(store: Store, order: seq<Id>, now: int, header: Option<string>,
                     secret: Option<string>, effects: Id -> Effects, k: nat)
    requires WellKeyed(store) && IsScanOrder(store, order)
    requires Authorized(header, secret)
    requires FirstAbortAt(SelectDue(store, now, order), effects, k)
    ensures var batch := SelectDue(store, now, order);
            var c := Dispatch.Dispatch(store, order, now, header, secret, Done, effects);
            && c.store == Expected(store, batch[..k], effects)
            && c.response == ServerError(CauseText(effects(batch[k].id).markFailed.cause))
            && c.sends == Requests(batch[..k + 1])
  {
    var batch := SelectDue(store, now, order);
    RunAbortsAt(store, |batch|, batch, effects, k);
    CycleOfRun(store, order, now, header, secret, effects);
  }

  /** An authorised cycle with a due batch answers with what its loop ends in. */
  lemma CycleOfRun(store: Store, order: seq<Id>, now: int, header: Option<string>,
                   secret: Option<string>, effects: Id -> Effects)
    requires WellKeyed(store) && IsScanOrder(store, order)
    requires Authorized(header, secret) && SelectDue(store, now, order) != []
    ensures var batch := SelectDue(store, now, order);
            var c := Dispatch.Dispatch(store, order, now, header, secret, Done, effects);
            match Run(store, |batch|, batch, effects)
            case Finished(p) => c == Cycle(p.store, Completed(p.report), p.sends, true)
            case Aborted(t, d, sends) => c == Cycle(t, ServerError(d), sends, true)
  {
  }

  /** Whatever happens, the table afterwards is the original with some
      prefix of the batch settled. */
  lemma CycleSettlesPrefix(store: Store, order: seq<Id>, now: int, header: Option<string>,
                           secret: Option<string>, read: Attempt, effects: Id -> Effects)
    requires WellKeyed(store) && IsScanOrder(store, order)
    ensures var batch := SelectDue(store, now, order);
            var c := Dispatch.Dispatch(store, order, now, header, secret, read, effects);
            exists k :: 0 <= k <= |batch| && c.store == Expected(store, batch[..k], effects)
  {
    var batch := SelectDue(store, now, order);
    var c := Dispatch.Dispatch(store, order, now, header, secret, read, effects);
    ExpectedEmpty(store, effects);
    assert batch[..0] == [];
    if Authorized(header, secret) && read.Done? && batch != [] {
      if NoAbort(batch, effects) {
        CompletedCycle(store, order, now, header, secret, effects);
        assert batch[..|batch|] == batch;
      } else {
        var k := FirstAbort(batch, effects);
        AbortedCycle(store, order, now, header, secret, effects, k);
      }
    }
  }

  /** The position of the first aborting message of a batch that has one. */
  function FirstAbort(batch: seq<Message>, effects: Id -> Effects): (k: nat)
    requires !NoAbort(batch, effects)
    ensures FirstAbortAt(batch, effects, k)
    decreases |batch|
  {
    if Aborts(effects(batch[0].id)) then 0
    else
      var k := FirstAbort(batch[1..], effects);
      assert batch[1..][..k] == batch[1..k + 1];
      k + 1
  }

  // ---------------------------------------------------------------------------
  // Invariants of every cycle

  /** How a row may change in one cycle: not at all, or, when it was due,
      to `failed` (with `sentAt` kept) or to `sent` stamped with the clock of
      its own iteration. Recipient, owner, subject, body and schedule never
      change. */
  predicate RowStep(before: Message, after: Message, now: int, fx: Effects) {
    || after == before
    || (Due(before, now) && after == before.(status := Failed))
    || (Due(before, now) && after == before.(status := Sent, sentAt := Some(fx.clock)))
  }

  lemma IdsOfPrefix(batch: seq<Message>, k: nat)
    requires k <= |batch|
    ensures Ids(batch[..k]) <= Ids(batch)
  {
    forall id | id in Ids(batch[..k]) ensures id in Ids(batch) {
      var i :| 0 <= i < k && batch[..k][i].id == id;
      assert batch[i].id == id;
    }
  }

  /** Settling a prefix of a due batch moves every row by a `RowStep`. */
  lemma SettledRowsStep(store: Store, now: int, batch: seq<Message>, k: nat, effects: Id -> Effects)
    requires k <= |batch| && Ids(batch) <= DueIds(store, now)
    ensures var after := Expected(store, batch[..k], effects);
            after.Keys == store.Keys
            && forall id :: id in store ==> RowStep(store[id], after[id], now, effects(id))
  {
    IdsOfPrefix(batch, k);
  }

  /** Every cycle keeps the set of rows, and moves each row by a `RowStep`:
      only due rows change, only to `sent` or `failed`, and nothing but
      `status` and `sentAt` is rewritten. */
  lemma CycleRowsStep(store: Store, order: seq<Id>, now: int, header: Option<string>,
                      secret: Option<string>, read: Attempt, effects: Id -> Effects)
    requires WellKeyed(store) && IsScanOrder(store, order)
    ensures var c := Dispatch.Dispatch(store, order, now, header, secret, read, effects);
            c.store.Keys == store.Keys
            && forall id :: id in store ==> RowStep(store[id], c.store[id], now, effects(id))
  {
    var batch := SelectDue(store, now, order);
    CycleSettlesPrefix(store, order, now, header, secret, read, effects);
    var c := Dispatch.Dispatch(store, order, now, header, secret, read, effects);
    var k :| 0 <= k <= |batch| && c.store == Expected(store, batch[..k], effects);
    SettledRowsStep(store, now, batch, k, effects);
  }

  /** Rows outside the batch (not due, or beyond the cap) leave every cycle
      unchanged. */
  lemma OutsideBatchUntouched(store: Store, order: seq<Id>, now: int, header: Option<string>,
                              secret: Option<string>, read: Attempt, effects: Id -> Effects, id: Id)
    requires WellKeyed(store) && IsScanOrder(store, order)
    requires id in store && id !in Ids(SelectDue(store, now, order))
    ensures var c := Dispatch.Dispatch(store, order, now, header, secret, read, effects);
            id in c.store && c.store[id] == store[id]
  {
    var batch := SelectDue(store, now, order);
    CycleSettlesPrefix(store, order, now, header, secret, read, effects);
    var c := Dispatch.Dispatch(store, order, now, header, secret, read, effects);
    var k :| 0 <= k <= |batch| && c.store == Expected(store, batch[..k], effects);
    IdsOfPrefix(batch, k);
  }

  /** A message already `sent` (or `failed`) is never picked up again: the
      query takes only `pending` rows, so it is not in the batch, no request
      is issued for it, and its row is left as it was. */
  lemma SettledRowsUntouched(store: Store, order: seq<Id>, now: int, header: Option<string>,
                             secret: Option<string>, read: Attempt, effects: Id -> Effects, id: Id)
    requires WellKeyed(store) && IsScanOrder(store, order)
    requires id in store && store[id].status != Pending
    ensures id !in Ids(SelectDue(store, now, order))
    ensures var c := Dispatch.Dispatch(store, order, now, header, secret, read, effects);
            id in c.store && c.store[id] == store[id]
  {
    CycleRowsStep(store, order, now, header, secret, read, effects);
  }

  /** A message is never sent early: if every clock reading of the cycle is
      at or after `now`, a row that becomes `sent` carries a `sentAt` no
      earlier than its `scheduledAt`. */
  lemma NoEarlySend(store: Store, order: seq<Id>, now: int, header: Option<string>,
                    secret: Option<string>, read: Attempt, effects: Id -> Effects, id: Id)
    requires WellKeyed(store) && IsScanOrder(store, order)
    requires forall x :: now <= effects(x).clock
    requires id in store && store[id].status != Sent
    ensures var c := Dispatch.Dispatch(store, order, now, header, secret, read, effects);
            id in c.store && c.store[id].status == Sent ==>
              c.store[id].sentAt.Some? && c.store[id].scheduledAt <= c.store[id].sentAt.value
  {
    CycleRowsStep(store, order, now, header, secret, read, effects);
    assert now <= effects(id).clock;
  }

  /** After an authorised cycle in which no `failed` write throws, the due
      rows are exactly those that were due and were not in the batch: every
      batch row has left the pending state and the rows beyond the cap are
      still waiting. */
  lemma CompletedCycleDrainsBatch(store: Store, order: seq<Id>, now: int, header: Option<string>,
                                  secret: Option<string>, effects: Id -> Effects)
    requires WellKeyed(store) && IsScanOrder(store, order)
    requires Authorized(header, secret) && NoAbort(SelectDue(store, now, order), effects)
    ensures var c := Dispatch.Dispatch(store, order, now, header, secret, Done, effects);
            DueIds(c.store, now) == DueIds(store, now) - Ids(SelectDue(store, now, order))
  {
    var batch := SelectDue(store, now, order);
    if batch == [] {
      assert Ids(batch) == {};
    } else {
      CompletedCycle(store, order, now, header, secret, effects);
      SettlingDrains(store, now, batch, effects);
    }
  }

  /** Settling a batch of due rows removes exactly its ids from the due set. */
  lemma SettlingDrains(store: Store, now: int, batch: seq<Message>, effects: Id -> Effects)
    requires Ids(batch) <= DueIds(store, now)
    ensures DueIds(Expected(store, batch, effects), now) == DueIds(store, now) - Ids(batch)
  {
  }

  /** In particular, when no more than `BatchLimit` messages were due, such
      a cycle leaves none due. */
  lemma CompletedCycleLeavesNothingDue(store: Store, order: seq<Id>, now: int, header: Option<string>,
                                       secret: Option<string>, effects: Id -> Effects)
    requires WellKeyed(store) && IsScanOrder(store, order)
    requires |DueIds(store, now)| <= BatchLimit
    requires Authorized(header, secret) && NoAbort(SelectDue(store, now, order), effects)
    ensures DueIds(Dispatch.Dispatch(store, order, now, header, secret, Done, effects).store, now) == {}
  {
    CompletedCycleDrainsBatch(store, order, now, header, secret, effects);
  }
}
