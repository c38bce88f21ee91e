/** Durable denial audit rows: one write, an ambiguous COMMIT, reconciliation and at most one retry. */
module AuditTransactions {
  import opened Options

  type EventId(==)
  type Tenant(==)
  type Payload(==)

  /** A stored audit row, under its event id. */
  datatype Row = Row(tenant: Tenant, payload: Payload)

  /** What the caller's callback records; its id should be the one the caller was given. */
  datatype Operation = Operation(eventId: EventId, payload: Payload)

  datatype Error = TimedOut | DatabaseError | Cancelled | WrongEvent | Broken

  /** How binding the tenant and running the operation go, before COMMIT is sent. */
  datatype Work = Ready | WorkTimedOut | WorkRefused | WorkCancelled | WorkBroken

  /** What the client hears of its COMMIT. */
  datatype Reply = Acknowledged | Rejected | Silent | ConnectionLost | CallerCancelled | ReplyBroken

  /**
   * The environment of one attempt. `applied` decides a COMMIT whose reply does not; it is decided
   * by the time the connection is discarded. `discarded` says that discarding it worked,
   * `cancellations` counts the caller's cancellations while that was awaited, and `closing` is one
   * while the session is closed, on the way out of the attempt.
   */
  datatype AttemptEnv = AttemptEnv(
    work: Work, reply: Reply, applied: bool, discarded: bool, cancellations: nat, closing: bool)

  /** The retry, in a task that the caller's cancellations do not reach. */
  function Shielded(env: AttemptEnv): AttemptEnv {
    env.(closing := false)
  }

  /** How one reconciliation read goes. */
  datatype ReadEnv = Reads | ReadTimedOut | ReadBroken

  /** Everything outside the protocol's control in one call. */
  datatype Env = Env(first: AttemptEnv, read: ReadEnv, retry: AttemptEnv, reread: ReadEnv, cancellations: nat)

  datatype AttemptResult = Committed(row: Row) | Ambiguous(error: Error) | Failed(error: Error)

  datatype ReadResult = Found(row: Row) | Absent | ReadFailed(error: Error)

  datatype Outcome = Returned(row: Row) | Raised(error: Error)

  /** The COMMIT was sent and took effect. */
  predicate Durable(env: AttemptEnv) {
    && env.work == Ready
    && match env.reply
       case Acknowledged => true
       case Rejected => false
       case _ => env.applied
  }

  /** The attempt ends in an error after which the row may or may not be there, and says so. */
  predicate Unclear(env: AttemptEnv) {
    && env.discarded && !env.closing
    && (env.work == WorkTimedOut
        || (env.work == Ready && (env.reply == Silent || env.reply == ConnectionLost || env.reply == CallerCancelled)))
  }

  /** The event is the caller's own, and an older row under its id is the same event. */
  predicate Consistent(before: Option<Row>, tenant: Tenant, eventId: EventId, op: Operation) {
    op.eventId == eventId && (before.Some? ==> before.value == Row(tenant, op.payload))
  }

  function At(rows: map<EventId, Row>, id: EventId): Option<Row> {
    if id in rows then Some(rows[id]) else None
  }

  /** The row under `id` after an attempt that met `before` there. */
  function Written(before: Option<Row>, tenant: Tenant, eventId: EventId, op: Operation, env: AttemptEnv): Option<Row> {
    if before.None? && op.eventId == eventId && Durable(env) then Some(Row(tenant, op.payload)) else before
  }

  /** The row under `id` after an attempt, whether or not it got as far as its COMMIT. */
  function AfterAttempt(
    before: Option<Row>, tenant: Tenant, eventId: EventId, op: Operation, env: AttemptEnv): Option<Row>
  {
    if Consistent(before, tenant, eventId, op) then Written(before, tenant, eventId, op, env) else before
  }

  /** The attempt is ambiguous: it is not refused for what it met, and ends unclear. */
  predicate Ambiguates(before: Option<Row>, tenant: Tenant, eventId: EventId, op: Operation, env: AttemptEnv) {
    Unclear(env) && (env.work == Ready ==> Consistent(before, tenant, eventId, op))
  }

  // Which error a call raises, by what caused it.

  /** Of an attempt that is not acknowledged. */
  function AttemptError(before: Option<Row>, tenant: Tenant, eventId: EventId, op: Operation, env: AttemptEnv): Error {
    var sent := env.work == Ready && Consistent(before, tenant, eventId, op);
    var unclear := env.work == WorkTimedOut || (sent && env.reply !in {Acknowledged, Rejected, ReplyBroken});
    if env.closing || env.work == WorkCancelled then Cancelled
    else if env.work == WorkBroken || (sent && env.reply == ReplyBroken) then Broken
    else if env.work == Ready && !sent then WrongEvent
    else if unclear && !env.discarded then TimedOut
    else if unclear && (env.cancellations > 0 || (sent && env.reply == CallerCancelled)) then Cancelled
    else if env.work == WorkTimedOut || (sent && env.reply == Silent) then TimedOut
    else DatabaseError
  }

  /** Of a reconciliation that neither finds the row nor finds nothing. */
  function ReadError(env: ReadEnv): Error {
    match env
    case ReadTimedOut => TimedOut
    case ReadBroken => Broken
    case Reads => WrongEvent
  }

  /** Of a recovery that does not find or write the row. */
  function RecoveryError(before: Option<Row>, tenant: Tenant, eventId: EventId, op: Operation, env: Env): Error {
    var retry := Shielded(env.retry);
    var after := AfterAttempt(before, tenant, eventId, op, retry);
    if env.read != Reads || !NotSeen(before, tenant) then ReadError(env.read)
    else if Ambiguates(before, tenant, eventId, op, retry) && (env.reread != Reads || !NotSeen(after, tenant)) then
      ReadError(env.reread)
    else AttemptError(before, tenant, eventId, op, retry)
  }

  /** Of a call: a recovery's own error comes first, and a cancellation only takes away its answer. */
  ghost function CallError(before: Option<Row>, tenant: Tenant, eventId: EventId, op: Operation, env: Env): Error {
    var after := AfterAttempt(before, tenant, eventId, op, env.first);
    if !Ambiguates(before, tenant, eventId, op, env.first) then AttemptError(before, tenant, eventId, op, env.first)
    else if Recovers(after, tenant, eventId, op, env) then Cancelled
    else RecoveryError(after, tenant, eventId, op, env)
  }

  /** The table, as the audit engine's transactions see it; other writers never use this event id. */
  class DurableAudit {
    var rows: map<EventId, Row>
    var attempts: nat

    constructor (rows: map<EventId, Row>)
      ensures this.rows == rows && attempts == 0
    {
      this.rows, attempts := rows, 0;
    }

    /** Other transactions, between two of this protocol's steps. */
    method Others(eventId: EventId)
      modifies this`rows
      ensures At(rows, eventId) == At(old(rows), eventId)
    {
      var others: map<EventId, Row> := *;
      rows := if eventId in rows then others[eventId := rows[eventId]] else others - {eventId};
    }

    /** `_settle`: drains the awaited task however often the caller cancels meanwhile. */
    method Settle(cancellations: nat) returns (cancelled: bool)
      ensures cancelled <==> cancellations > 0
    {
      cancelled := false;
      var pending: nat := cancellations;
      while pending > 0
        invariant pending <= cancellations && (cancelled <==> pending < cancellations)
      {
        cancelled := true;
        pending := pending - 1;
      }
    }

    /**
     * The repository's `record`: insert unless the id exists, then read the row back inside the
     * tenant and compare it. Gives the transaction's own view of the table.
     */
    method Record(tenant: Tenant, op: Operation) returns (view: map<EventId, Row>, ok: bool)
      ensures view == if op.eventId in rows then rows else rows[op.eventId := Row(tenant, op.payload)]
      ensures ok <==> view[op.eventId] == Row(tenant, op.payload)
    {
      view := if op.eventId in rows then rows else rows[op.eventId := Row(tenant, op.payload)];
      var stored := view[op.eventId];
      ok := stored.tenant == tenant && stored.payload == op.payload;
    }

    /** One bounded write and COMMIT. */
    method Attempt(tenant: Tenant, eventId: EventId, op: Operation, env: AttemptEnv) returns (r: AttemptResult)
      modifies this
      ensures attempts == old(attempts) + 1
      ensures At(rows, eventId) == AfterAttempt(At(old(rows), eventId), tenant, eventId, op, env)
      ensures env.closing ==> r == Failed(Cancelled)
      ensures r.Committed? <==>
                && Consistent(At(old(rows), eventId), tenant, eventId, op)
                && env.work == Ready && env.reply == Acknowledged && !env.closing
      ensures r.Committed? ==> r.row == Row(tenant, op.payload) && At(rows, eventId) == Some(r.row)
      ensures r.Ambiguous? <==> Ambiguates(At(old(rows), eventId), tenant, eventId, op, env)
      ensures !r.Committed? ==> r.error == AttemptError(At(old(rows), eventId), tenant, eventId, op, env)
      ensures r.Ambiguous? ==>
                (r.error == Cancelled <==> env.cancellations > 0 || (env.work == Ready && env.reply == CallerCancelled))
    {
      attempts := attempts + 1;
      Others(eventId);
      r := InSession(tenant, eventId, op, env);
      if env.closing {
        r := Failed(Cancelled);
      }
    }

    /** The attempt's work, inside its session. */
    method InSession(tenant: Tenant, eventId: EventId, op: Operation, env: AttemptEnv) returns (r: AttemptResult)
      modifies this`rows
      ensures At(rows, eventId) == AfterAttempt(At(old(rows), eventId), tenant, eventId, op, env)
      ensures r.Committed? <==>
                && Consistent(At(old(rows), eventId), tenant, eventId, op)
                && env.work == Ready && env.reply == Acknowledged
      ensures r.Committed? ==> r.row == Row(tenant, op.payload) && At(rows, eventId) == Some(r.row)
      ensures r.Ambiguous? <==> Ambiguates(At(old(rows), eventId), tenant, eventId, op, Shielded(env))
      ensures !r.Committed? ==> r.error == AttemptError(At(old(rows), eventId), tenant, eventId, op, Shielded(env))
      ensures r.Ambiguous? ==>
                (r.error == Cancelled <==> env.cancellations > 0 || (env.work == Ready && env.reply == CallerCancelled))
    {
      var error: Error;
      match env.work {
        case WorkRefused => return Failed(DatabaseError);
        case WorkCancelled => return Failed(Cancelled);
        case WorkBroken => return Failed(Broken);
        case WorkTimedOut => error := TimedOut;
        case Ready =>
          var view, ok := Record(tenant, op);
          if !ok || op.eventId != eventId {
            return Failed(WrongEvent);
          }
          if env.reply == Acknowledged || (env.reply != Rejected && env.applied) {
            rows := view;
          }
          match env.reply {
            case Acknowledged => return Committed(view[eventId]);
            case Rejected => return Failed(DatabaseError);
            case ReplyBroken => return Failed(Broken);
            case Silent => error := TimedOut;
            case ConnectionLost => error := DatabaseError;
            case CallerCancelled => error := Cancelled;
          }
      }
      var cancelled := Settle(env.cancellations);
      if !env.discarded {
        return Failed(TimedOut);
      }
      r := Ambiguous(if cancelled then Cancelled else error);
    }

    /** Reads the event back through a fresh transaction, which is rolled back in any case. */
    method Reconcile(tenant: Tenant, eventId: EventId, op: Operation, env: ReadEnv) returns (r: ReadResult)
      modifies this`rows
      ensures At(rows, eventId) == At(old(rows), eventId)
      ensures r.Absent? <==> env == Reads && (At(rows, eventId).Some? ==> At(rows, eventId).value.tenant != tenant)
      ensures r.Found? <==>
                env == Reads && At(rows, eventId).Some? && Consistent(At(rows, eventId), tenant, eventId, op)
      ensures r.Found? ==> At(rows, eventId) == Some(r.row)
      ensures r.ReadFailed? ==> r.error == ReadError(env)
    {
      Others(eventId);
      match env {
        case ReadTimedOut => return ReadFailed(TimedOut);
        case ReadBroken => return ReadFailed(Broken);
        case Reads =>
      }
      if eventId !in rows || rows[eventId].tenant != tenant {
        return Absent;
      }
      var view, ok := Record(tenant, op);
      if !ok || op.eventId != eventId {
        return ReadFailed(WrongEvent);
      }
      r := Found(view[eventId]);
    }

    /** Reconciles, and retries once when the first attempt left nothing behind. */
    method Recover(tenant: Tenant, eventId: EventId, op: Operation, env: Env) returns (o: Outcome, bothAbsent: bool)
      modifies this
      ensures old(attempts) <= attempts <= old(attempts) + 1
      ensures attempts == old(attempts) <==> env.read != Reads || Visible(old(rows), tenant, eventId)
      ensures Grown(At(old(rows), eventId), At(rows, eventId), tenant, eventId, op)
      ensures o.Returned? ==> At(rows, eventId) == Some(o.row) && o.row == Row(tenant, op.payload) && op.eventId == eventId
      ensures o.Returned? <==> Recovers(At(old(rows), eventId), tenant, eventId, op, env)
      ensures o.Raised? ==> o.error == RecoveryError(At(old(rows), eventId), tenant, eventId, op, env)
      ensures bothAbsent <==> TwiceAbsent(At(old(rows), eventId), tenant, eventId, op, env)
      ensures bothAbsent ==> o.Raised? && !Visible(rows, tenant, eventId)
    {
      bothAbsent := false;
      var read := Reconcile(tenant, eventId, op, env.read);
      match read {
        case Found(row) => return Returned(row), false;
        case ReadFailed(error) => return Raised(error), false;
        case Absent =>
      }
      var retried := Attempt(tenant, eventId, op, Shielded(env.retry));
      match retried {
        case Committed(row) => return Returned(row), false;
        case Failed(error) => return Raised(error), false;
        case Ambiguous(error) =>
          var reread := Reconcile(tenant, eventId, op, env.reread);
          match reread {
            case Found(row) => return Returned(row), false;
            case ReadFailed(readError) => return Raised(readError), false;
            case Absent => return Raised(error), true;
          }
      }
    }

    /** Persists one semantic denial. `bothAbsent` reports that both reconciliations read nothing. */
    method ExecuteIdempotent(tenant: Tenant, eventId: EventId, op: Operation, env: Env)
      returns (o: Outcome, bothAbsent: bool)
      modifies this
      ensures old(attempts) < attempts <= old(attempts) + 2
      ensures Grown(At(old(rows), eventId), At(rows, eventId), tenant, eventId, op)
      ensures o.Returned? ==> At(rows, eventId) == Some(o.row) && o.row == Row(tenant, op.payload) && op.eventId == eventId
      ensures o.Returned? <==> Succeeds(At(old(rows), eventId), tenant, eventId, op, env)
      ensures o.Raised? ==> o.error == CallError(At(old(rows), eventId), tenant, eventId, op, env)
      ensures attempts == old(attempts) + 2 <==>
                && Ambiguates(At(old(rows), eventId), tenant, eventId, op, env.first) && env.read == Reads
                && NotSeen(AfterAttempt(At(old(rows), eventId), tenant, eventId, op, env.first), tenant)
      ensures env.first.closing ==> o == Raised(Cancelled) && attempts == old(attempts) + 1
      ensures bothAbsent <==> NothingWritten(At(old(rows), eventId), tenant, eventId, op, env)
      ensures bothAbsent ==> o.Raised? && !Visible(rows, tenant, eventId)
      ensures Consistent(At(old(rows), eventId), tenant, eventId, op) && Durable(env.first) ==>
                attempts == old(attempts) + 1 && At(rows, eventId) == Some(Row(tenant, op.payload))
    {
      bothAbsent := false;
      var first := Attempt(tenant, eventId, op, env.first);
      match first {
        case Committed(row) => return Returned(row), false;
        case Failed(error) => return Raised(error), false;
        case Ambiguous(original) =>
          o, bothAbsent := Recover(tenant, eventId, op, env);
          var cancelled := Settle(env.cancellations);
          if o.Returned? && (cancelled || original == Cancelled) {
            o := Raised(Cancelled);
          }
      }
    }
  }

  /** A row the tenant can read. */
  predicate Visible(rows: map<EventId, Row>, tenant: Tenant, eventId: EventId) {
    eventId in rows && rows[eventId].tenant == tenant
  }

  /** The event's row was left alone, or written once with the canonical payload. */
  ghost predicate Grown(before: Option<Row>, after: Option<Row>, tenant: Tenant, eventId: EventId, op: Operation) {
    after == before || (before.None? && op.eventId == eventId && after == Some(Row(tenant, op.payload)))
  }

  /** Recovery finds the row, or writes it on the retry, or finds it after an unclear retry. */
  ghost predicate Recovers(before: Option<Row>, tenant: Tenant, eventId: EventId, op: Operation, env: Env) {
    && Consistent(before, tenant, eventId, op)
    && env.read == Reads
    && (before.Some?
        || (env.retry.work == Ready && env.retry.reply == Acknowledged)
        || (Unclear(Shielded(env.retry)) && env.reread == Reads && Durable(env.retry)))
  }

  /** A reconciliation of the tenant finds nothing. */
  predicate NotSeen(row: Option<Row>, tenant: Tenant) {
    row.Some? ==> row.value.tenant != tenant
  }

  /** Recovery reads nothing, retries without an answer, and reads nothing again. */
  ghost predicate TwiceAbsent(before: Option<Row>, tenant: Tenant, eventId: EventId, op: Operation, env: Env) {
    && env.read == Reads && NotSeen(before, tenant)
    && Ambiguates(before, tenant, eventId, op, Shielded(env.retry))
    && env.reread == Reads && NotSeen(AfterAttempt(before, tenant, eventId, op, env.retry), tenant)
  }

  /** The first attempt is ambiguous, and recovery twice reads nothing. */
  ghost predicate NothingWritten(before: Option<Row>, tenant: Tenant, eventId: EventId, op: Operation, env: Env) {
    && Ambiguates(before, tenant, eventId, op, env.first)
    && TwiceAbsent(AfterAttempt(before, tenant, eventId, op, env.first), tenant, eventId, op, env)
  }

  /**
   * When a call returns: the first COMMIT is acknowledged and no cancellation meets the closing of its
   * session, or it is unclear and recovered undisturbed.
   */
  ghost predicate Succeeds(before: Option<Row>, tenant: Tenant, eventId: EventId, op: Operation, env: Env) {
    && Consistent(before, tenant, eventId, op)
    && ((env.first.work == Ready && env.first.reply == Acknowledged && !env.first.closing)
        || (&& Unclear(env.first)
            && env.first.cancellations == 0 && env.cancellations == 0
            && !(env.first.work == Ready && env.first.reply == CallerCancelled)
            && Recovers(Written(before, tenant, eventId, op, env.first), tenant, eventId, op, env)))
  }

  /**
   * Over any number of calls for one event, by this process or after a restart, its row is written
   * at most once and never changes afterwards.
   */
  lemma {:induction false} RowWrittenOnce(
    history: seq<Option<Row>>, i: nat, j: nat, tenant: Tenant, eventId: EventId, op: Operation)
    requires i <= j < |history|
    requires forall k | 0 <= k < |history| - 1 :: Grown(history[k], history[k + 1], tenant, eventId, op)
    ensures Grown(history[i], history[j], tenant, eventId, op)
    ensures history[i].Some? ==> history[j] == history[i]
  {
    if i < j {
      RowWrittenOnce(history, i, j - 1, tenant, eventId, op);
      assert Grown(history[j - 1], history[j - 1 + 1], tenant, eventId, op);
    }
  }

  /**
   * When both attempts are unclear but the reads work and nobody cancels, the call returns exactly if
   * the event's row is there in the end, whoever put it there, and else it has read nothing twice.
   */
  lemma UndisturbedOutcome(before: Option<Row>, tenant: Tenant, eventId: EventId, op: Operation, env: Env)
    requires Consistent(before, tenant, eventId, op) && Unclear(env.first) && Unclear(Shielded(env.retry))
    requires env.first.cancellations == env.cancellations == 0
    requires !(env.first.work == Ready && env.first.reply == CallerCancelled)
    requires env.read == Reads && env.reread == Reads
    ensures var met := AfterAttempt(before, tenant, eventId, op, env.first);
            var end := if met.Some? then met else AfterAttempt(met, tenant, eventId, op, env.retry);
            && (Succeeds(before, tenant, eventId, op, env) <==> end == Some(Row(tenant, op.payload)))
            && (NothingWritten(before, tenant, eventId, op, env) <==> end.None?)
  {
  }

  /**
   * A cancellation while the first attempt's session closes takes the answer away: the COMMIT is
   * acknowledged and the row stored, or it is unclear and would be recovered, and yet the call fails
   * without a look at the row.
   */
  lemma CancelledWhileClosing(tenant: Tenant, eventId: EventId, payload: Payload) returns (op: Operation, acknowledged: Env, unclear: Env)
    ensures op == Operation(eventId, payload)
    ensures acknowledged.first.closing && AfterAttempt(None, tenant, eventId, op, acknowledged.first).Some?
    ensures !Succeeds(None, tenant, eventId, op, acknowledged)
    ensures Succeeds(None, tenant, eventId, op, acknowledged.(first := Shielded(acknowledged.first)))
    ensures unclear.first.closing && !Succeeds(None, tenant, eventId, op, unclear)
    ensures Succeeds(None, tenant, eventId, op, unclear.(first := Shielded(unclear.first)))
  {
    op := Operation(eventId, payload);
    var fine := AttemptEnv(Ready, Acknowledged, true, true, 0, false);
    acknowledged := Env(fine.(closing := true), Reads, fine, Reads, 0);
    unclear := Env(fine.(reply := Silent, closing := true), Reads, fine, Reads, 0);
  }
}
