/** One invocation of the scheduled-dispatch route
    (app/api/cron/send-scheduled/route.ts): authorise the caller, select the
    due batch, try one send per message in batch order, record `sent` or
    `failed`, and answer with a report or an error.

    The database, the mail gateway and the clock are not modelled: every
    awaited call is an input `Attempt` saying whether it returned or threw,
    and the clock reading taken for `sentAt` is an input too. */
module Dispatch {
  import opened Wrappers
  import opened Messages

  // ---------------------------------------------------------------------------
  // Authorisation

  /** The header the route compares against, as written: the template literal
      turns an unset secret into the text "undefined". */
  function ExpectedHeaderAsWritten(secret: Option<string>): string {
    "Bearer " + secret.GetOr("undefined")
  }

  /** The check as written: `authHeader !== \`Bearer ${process.env.CRON_SECRET}\``
      rejects; everything else passes. Only a bearer header passes, and with
      the secret unset exactly the literal `Bearer undefined` does. */
  predicate AuthorizedAsWritten(header: Option<string>, secret: Option<string>)
    ensures AuthorizedAsWritten(header, secret) ==>
              header.Some? && |header.value| >= 7 && header.value[..7] == "Bearer "
    ensures secret.None? ==> (AuthorizedAsWritten(header, secret) <==> header == Some("Bearer undefined"))
  {
    assert "Bearer " + "undefined" == "Bearer undefined";
    header == Some(ExpectedHeaderAsWritten(secret))
  }

  /** The check as intended: a configured secret, presented exactly as
      `Bearer <secret>`. This is the one the cycle uses. */
  predicate Authorized(header: Option<string>, secret: Option<string>) {
    secret.Some? && header == Some("Bearer " + secret.value)
  }

  /** With the secret unset, the check as written lets through anyone who
      sends the literal header `Bearer undefined`; the intended check does not. */
  lemma UnsetSecretAdmitsLiteralUndefined()
    ensures AuthorizedAsWritten(Some("Bearer undefined"), None)
    ensures !Authorized(Some("Bearer undefined"), None)
  {
    assert ExpectedHeaderAsWritten(None) == "Bearer " + "undefined";
    assert "Bearer " + "undefined" == "Bearer undefined";
  }

  /** The two checks differ only when the secret is unset: with it configured
      they agree on every header, and without it the intended check admits nobody. */
  lemma AuthorizationAgreesWhenConfigured(header: Option<string>, secret: Option<string>)
    ensures secret.Some? ==> (AuthorizedAsWritten(header, secret) <==> Authorized(header, secret))
    ensures secret.None? ==> !Authorized(header, secret)
    ensures Authorized(header, secret) ==> AuthorizedAsWritten(header, secret)
  {
  }

  // ---------------------------------------------------------------------------
  // The outside world

  /** How one awaited call ended: it returned, or it threw. `cause` is the
      message of a thrown `Error`, and `None` when something else was thrown. */
  datatype Attempt = Done | Threw(cause: Option<string>)

  /** `error instanceof Error ? error.message : "Unknown error"`. */
  function CauseText(cause: Option<string>): (text: string)
    ensures cause.Some? ==> text == cause.value
    ensures cause.None? ==> text == "Unknown error"
  {
    cause.GetOr("Unknown error")
  }

  /** What happens around one message of the batch: how the send, the
      `sent` write and the `failed` write end, and the clock reading
      `new Date()` takes for `sentAt`. Only the calls the route reaches are
      consulted. */
  datatype Effects = Effects(send: Attempt, markSent: Attempt, markFailed: Attempt, clock: int)

  /** The argument of `sendScheduledEmail`. */
  datatype SendRequest = SendRequest(
    to: string,
    toName: Option<string>,
    subject: string,
    body: string,
    replyTo: string,
    replyToName: Option<string>)

  /** `value || undefined`: an empty or missing name is left out. */
  function Present(name: Option<string>): (r: Option<string>)
    ensures r.Some? <==> name.Some? && name.value != []
    ensures r.Some? ==> r == name
  {
    if name.Some? && name.value != [] then name else None
  }

  /** The send request for one message: recipient and content verbatim, the
      owner as reply-to, empty names dropped. */
  function RequestFor(m: Message): (r: SendRequest)
    ensures r.to == m.recipientEmail && r.subject == m.subject && r.body == m.body
    ensures r.replyTo == m.owner.email
    ensures r.toName.Some? <==> m.recipientName.Some? && m.recipientName.value != []
    ensures r.toName.Some? ==> r.toName == m.recipientName
    ensures r.replyToName.Some? <==> m.owner.name.Some? && m.owner.name.value != []
    ensures r.replyToName.Some? ==> r.replyToName == m.owner.name
  {
    SendRequest(m.recipientEmail, Present(m.recipientName), m.subject, m.body,
                m.owner.email, Present(m.owner.name))
  }

  // ---------------------------------------------------------------------------
  // Responses

  /** The route's aggregate `results` object. */
  datatype Report = Report(total: nat, sent: nat, failed: nat, errors: seq<string>)

  /** The four JSON answers of the route. */
  datatype Response =
    | Unauthorized                  // 401 { error: "Unauthorized" }
    | NothingToSend                 // 200 { message: "No messages to send", processed: 0 }
    | Completed(results: Report)    // 200 { message: "Cron job completed", results }
    | ServerError(details: string)  // 500 { error: "Failed to process scheduled messages", details }

  /** The HTTP status of a response: 401 and 500 exactly for the two error
      answers, 200 for the others. */
  function StatusCode(r: Response): (code: int)
    ensures code == 401 <==> r.Unauthorized?
    ensures code == 500 <==> r.ServerError?
    ensures code == 200 <==> r.NothingToSend? || r.Completed?
  {
    match r
    case Unauthorized => 401
    case ServerError(_) => 500
    case _ => 200
  }

  /** The JSON field a response carries its text in, and that text: failures
      answer under `error`, the two 200 answers under `message`, and each kind
      of answer has its own text. */
  function Headline(r: Response): (h: (string, string))
    ensures h.0 == "error" <==> StatusCode(r) != 200
    ensures h.0 == "message" <==> StatusCode(r) == 200
    ensures h.1 == "Unauthorized" <==> r.Unauthorized?
    ensures h.1 == "No messages to send" <==> r.NothingToSend?
    ensures h.1 == "Cron job completed" <==> r.Completed?
    ensures h.1 == "Failed to process scheduled messages" <==> r.ServerError?
  {
    match r
    case Unauthorized => ("error", "Unauthorized")
    case NothingToSend => ("message", "No messages to send")
    case Completed(_) => ("message", "Cron job completed")
    case ServerError(_) => ("error", "Failed to process scheduled messages")
  }

  // ---------------------------------------------------------------------------
  // One message

  /** The `try` block at route.ts:49-69 finishes: the send and the `sent` write both return. */
  predicate Delivers(fx: Effects) {
    fx.send.Done? && fx.markSent.Done?
  }

  /** What the `catch` block receives: the send's error, or, when the send
      returned, the `sent` write's. */
  function CaughtCause(fx: Effects): Option<string>
    requires !Delivers(fx)
  {
    if fx.send.Threw? then fx.send.cause else fx.markSent.cause
  }

  /** The `failed` write inside the `catch` block throws, which leaves the
      loop and the whole cycle. */
  predicate Aborts(fx: Effects) {
    !Delivers(fx) && fx.markFailed.Threw?
  }

  /** `Message <id>: <cause>`: the id and the cause's text can be read back
      from the line. */
  function ErrorLine(id: Id, cause: Option<string>): (line: string)
    ensures |line| == 10 + |id| + |CauseText(cause)|
    ensures line[..8] == "Message " && line[8..8 + |id|] == id
    ensures line[8 + |id|..10 + |id|] == ": " && line[10 + |id|..] == CauseText(cause)
  {
    "Message " + id + ": " + CauseText(cause)
  }

  /** The `update` to `sent` with `sentAt` set: that row becomes `sent`
      stamped with `at`, no other field of it changes and no other row does. */
  function MarkSent(store: Store, id: Id, at: int): (s: Store)
    ensures s.Keys == store.Keys
    ensures id in store ==> s[id].status == Sent && s[id].sentAt == Some(at)
                            && s[id].(status := store[id].status, sentAt := store[id].sentAt) == store[id]
    ensures forall x :: x in store && x != id ==> s[x] == store[x]
  {
    if id in store then store[id := store[id].(status := Sent, sentAt := Some(at))] else store
  }

  /** The `update` to `failed`: that row becomes `failed`, no other field of
      it changes (`sentAt` included) and no other row does. */
  function MarkFailed(store: Store, id: Id): (s: Store)
    ensures s.Keys == store.Keys
    ensures id in store ==> s[id].status == Failed && s[id].(status := store[id].status) == store[id]
    ensures forall x :: x in store && x != id ==> s[x] == store[x]
  {
    if id in store then store[id := store[id].(status := Failed)] else store
  }

  /** The loop state between two messages. */
  datatype Progress = Progress(store: Store, report: Report, sends: seq<SendRequest>)

  /** How processing stopped: the loop ran to its end, or the `failed` write
      threw. Writes committed before an abort stay in `store`. */
  datatype LoopEnd =
    | Finished(progress: Progress)
    | Aborted(store: Store, details: string, sends: seq<SendRequest>)

  /** One iteration of the `for` loop: one send request is issued whatever
      happens; the iteration aborts exactly when the `failed` write throws,
      leaving the table as it was; otherwise it settles the message's row and
      counts it once, as sent exactly when the send and the `sent` write both
      returned, and as failed with one error line otherwise. */
  function Step(p: Progress, m: Message, fx: Effects): (r: LoopEnd)
    ensures r.Aborted? <==> Aborts(fx)
    ensures r.Aborted? ==> r.store == p.store && r.details == CauseText(fx.markFailed.cause)
                           && r.sends == p.sends + [RequestFor(m)]
    ensures r.Finished? ==> var q := r.progress;
      && q.sends == p.sends + [RequestFor(m)]
      && q.store.Keys == p.store.Keys
      && (m.id in p.store ==> q.store[m.id].status == (if Delivers(fx) then Sent else Failed))
      && q.report.total == p.report.total
      && q.report.sent + q.report.failed == p.report.sent + p.report.failed + 1
      && (q.report.sent == p.report.sent + 1 <==> Delivers(fx))
      && q.report.errors == p.report.errors + (if Delivers(fx) then [] else [ErrorLine(m.id, CaughtCause(fx))])
  {
    var sends := p.sends + [RequestFor(m)];
    if Delivers(fx) then
      Finished(Progress(MarkSent(p.store, m.id, fx.clock),
                        p.report.(sent := p.report.sent + 1), sends))
    else if fx.markFailed.Done? then
      Finished(Progress(MarkFailed(p.store, m.id),
                        p.report.(failed := p.report.failed + 1,
                                  errors := p.report.errors + [ErrorLine(m.id, CaughtCause(fx))]),
                        sends))
    else
      Aborted(p.store, CauseText(fx.markFailed.cause), sends)
  }

  /** The loop over `batch`, in order, starting from `store` and a report
      whose `total` is already set. */
  function Run(store: Store, total: nat, batch: seq<Message>, effects: Id -> Effects): (r: LoopEnd)
    ensures r.Finished? ==> var rep := r.progress.report;
      && rep.total == total && rep.sent + rep.failed == |batch| && |rep.errors| == rep.failed
      && |r.progress.sends| == |batch| && r.progress.store.Keys == store.Keys
    ensures r.Aborted? ==> 0 < |r.sends| <= |batch| && r.store.Keys == store.Keys
    decreases |batch|
  {
    if batch == [] then Finished(Progress(store, Report(total, 0, 0, []), []))
    else
      var last := batch[|batch| - 1];
      match Run(store, total, batch[..|batch| - 1], effects)
      case Finished(p) => Step(p, last, effects(last.id))
      case Aborted(s, d, sends) => Aborted(s, d, sends)
  }

  // ---------------------------------------------------------------------------
  // The cycle

  /** Everything one invocation produces: the table afterwards, the answer,
      the send requests issued in order, and whether the table was queried. */
  datatype Cycle = Cycle(store: Store, response: Response, sends: seq<SendRequest>, queried: bool)

  /** `GET` on the dispatch route. `read` says how the `findMany` query ends;
      when it returns, its rows are `SelectDue(store, now, order)`. */
  function Dispatch(store: Store, order: seq<Id>, now: int,
                    header: Option<string>, secret: Option<string>,
                    read: Attempt, effects: Id -> Effects): (c: Cycle)
    requires WellKeyed(store) && IsScanOrder(store, order)
    ensures c.response.Unauthorized? <==> !Authorized(header, secret)
    ensures c.queried <==> Authorized(header, secret)
    ensures c.store.Keys == store.Keys
    ensures |c.sends| <= BatchLimit
    ensures c.sends != [] ==> c.queried && read.Done?
    ensures c.response.Completed? ==> var rep := c.response.results;
      && 0 < rep.total <= BatchLimit
      && rep.total == (if |DueIds(store, now)| <= BatchLimit then |DueIds(store, now)| else BatchLimit)
      && rep.sent + rep.failed == rep.total && |rep.errors| == rep.failed && |c.sends| == rep.total
  {
    if !Authorized(header, secret) then Cycle(store, Unauthorized, [], false)
    else if read.Threw? then Cycle(store, ServerError(CauseText(read.cause)), [], true)
    else
      var batch := SelectDue(store, now, order);
      if batch == [] then Cycle(store, NothingToSend, [], true)
      else match Run(store, |batch|, batch, effects)
        case Finished(p) => Cycle(p.store, Completed(p.report), p.sends, true)
        case Aborted(s, d, sends) => Cycle(s, ServerError(d), sends, true)
  }
}
