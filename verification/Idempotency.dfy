/** Idempotent Action starts: the stored response, the handler's two chances to find it, and the run
    created in the same transaction as the record. */
module Idempotency {
  import opened Prelude
  import opened Behaviours
  import opened TtlTable

  const RECORD_TTL_SECONDS: nat := 24 * 60 * 60
  const MAX_STORED_RESPONSE_BYTES: nat := 64 * 1024
  const CLEANUP_BATCH_SIZE: nat := 1_000
  const ACCEPTED: int := 202

  /** The caller's key is only ever stored as its hash. */
  datatype Key = Key(orgId: string, principalId: string, keyHash: string)

  /** The serialized run an answer carries. */
  datatype RunBody = RunBody(id: string, content: string)

  datatype StoredResponse = StoredResponse(
    operation: string, requestFingerprint: string, resourceId: string, responseStatus: int, body: RunBody)

  datatype Reply = Accepted(body: RunBody, replayed: bool) | IdempotencyConflict | Internal(message: string) | Proceed

  predicate RequireMatch(stored: StoredResponse, offered: StoredResponse) {
    stored.operation == offered.operation && stored.requestFingerprint == offered.requestFingerprint
  }

  const RECORD_RULES: Rules<StoredResponse> := Rules(RECORD_TTL_SECONDS, RequireMatch)

  /** The record a create transaction stores for a new run. */
  function RecordFor(operation: string, fingerprint: string, run: RunBody): StoredResponse {
    StoredResponse(operation, fingerprint, run.id, ACCEPTED, run)
  }

  function ReplyTo(stored: StoredResponse): Reply {
    if stored.responseStatus != ACCEPTED then Internal("stored idempotency response has an invalid status")
    else if stored.body.id != stored.resourceId then Internal("stored idempotency response has an invalid resource")
    else Accepted(stored.body, true)
  }

  /** What the handler says to each table answer; `Proceed` means it goes on to create. */
  function Respond(answer: Answer<StoredResponse>, offered: StoredResponse): Reply {
    match answer
    case Fresh => Accepted(offered.body, false)
    case Replay(stored) => ReplyTo(stored)
    case Conflict => IdempotencyConflict
    case Miss => Proceed
  }

  type RecordTable = Table<Key, StoredResponse>

  class IdempotencyStore {
    var records: RecordTable
    var runs: map<string, RunBody>
    var logs: map<string, string>

    constructor ()
      ensures records == map[] && runs == map[] && logs == map[]
    {
      records, runs, logs := map[], map[], map[];
    }

    method Lookup(k: Key, operation: string, fingerprint: string, now: int) returns (r: Reply)
      ensures var probe := RecordFor(operation, fingerprint, RunBody("", ""));
              r == Respond(PeekQuery(records, now, k, probe, RequireMatch), probe)
      ensures r == if k !in records || records[k].expiresAt <= now then Proceed
                   else var stored := records[k].value;
                     if stored.operation != operation || stored.requestFingerprint != fingerprint
                     then IdempotencyConflict
                     else if stored.responseStatus != 202
                     then Internal("stored idempotency response has an invalid status")
                     else if stored.body.id != stored.resourceId
                     then Internal("stored idempotency response has an invalid resource")
                     else Accepted(stored.body, true)
    {
      if k !in records || records[k].expiresAt <= now {
        return Proceed;
      }
      var stored := records[k].value;
      if stored.operation != operation || stored.requestFingerprint != fingerprint {
        return IdempotencyConflict;
      }
      if stored.responseStatus != 202 {
        return Internal("stored idempotency response has an invalid status");
      }
      if stored.body.id != stored.resourceId {
        return Internal("stored idempotency response has an invalid resource");
      }
      return Accepted(stored.body, true);
    }

    /** One transaction: expire, reserve, and either replay or insert run and log.  Any error rolls every
        change back. */
    method CreateRunIdempotent(k: Key, operation: string, fingerprint: string, run: RunBody, now: int)
      returns (r: Reply)
      modifies this
      ensures var rec := RecordFor(operation, fingerprint, run);
              var (table, answer) := ReserveTx(old(records), now, RECORD_TTL_SECONDS, k, rec, RequireMatch);
              var tooLarge := |run.content| > MAX_STORED_RESPONSE_BYTES;
              var clash := answer.Fresh? && (run.id in old(runs) || run.id in old(logs));
              && (tooLarge || clash ==>
                    r.Internal? && records == old(records) && runs == old(runs) && logs == old(logs))
              && (!tooLarge && !clash ==>
                    && r == Respond(answer, rec) && records == table
                    && runs == (if answer.Fresh? then old(runs)[run.id := run] else old(runs))
                    && logs == (if answer.Fresh? then old(logs)[run.id := ""] else old(logs)))
      ensures |run.content| <= 65_536 && k in old(records) && old(records)[k].expiresAt > now ==>
                && records == old(records) && runs == old(runs) && logs == old(logs)
                && var stored := old(records)[k].value;
                   r == if stored.operation != operation || stored.requestFingerprint != fingerprint
                        then IdempotencyConflict
                        else if stored.responseStatus != 202
                        then Internal("stored idempotency response has an invalid status")
                        else if stored.body.id != stored.resourceId
                        then Internal("stored idempotency response has an invalid resource")
                        else Accepted(stored.body, true)
      ensures |run.content| <= 65_536 && (k !in old(records) || old(records)[k].expiresAt <= now)
              && run.id !in old(runs) && run.id !in old(logs) ==>
                && r == Accepted(run, false)
                && records == old(records)[k := Entry(StoredResponse(operation, fingerprint, run.id, 202, run),
                                                      now + 86_400)]
                && runs == old(runs)[run.id := run] && logs == old(logs)[run.id := ""]
    {
      if |run.content| > MAX_STORED_RESPONSE_BYTES {
        return Internal("Action response exceeds the idempotency storage bound");
      }
      OnlyFreshWrites(records, now, RECORD_TTL_SECONDS, k, RecordFor(operation, fingerprint, run), RequireMatch);
      var tx := records;
      if k in tx && tx[k].expiresAt <= now {
        tx := tx - {k};
      }
      var inserted := k !in tx;
      if inserted {
        tx := tx[k := Entry(RecordFor(operation, fingerprint, run), now + RECORD_TTL_SECONDS)];
      } else {
        var stored := tx[k].value;
        if stored.operation != operation || stored.requestFingerprint != fingerprint {
          return IdempotencyConflict;
        }
        if stored.responseStatus != 202 {
          return Internal("stored idempotency response has an invalid status");
        }
        if stored.body.id != stored.resourceId {
          return Internal("stored idempotency response has an invalid resource");
        }
        records := tx;
        return Accepted(stored.body, true);
      }
      if run.id in runs || run.id in logs {
        return Internal("persist idempotent Action");
      }
      records, runs, logs := tx, runs[run.id := run], logs[run.id := ""];
      return Accepted(run, false);
    }

    method CleanupExpired(now: int) returns (removed: nat)
      modifies this`records
      ensures exists gone :: LegalBatch(old(records), now, CLEANUP_BATCH_SIZE, gone)
                             && records == old(records) - gone && removed == |gone|
      ensures Live(records, now) == Live(old(records), now)
      ensures removed == Min(1_000, |set k | k in old(records) && old(records)[k].expiresAt <= now|)
      ensures forall k :: k in records ==> k in old(records) && records[k] == old(records)[k]
      ensures forall k :: k in old(records) && old(records)[k].expiresAt > now ==> k in records
      ensures forall a, b :: (a in old(records) && a !in records && b in records
                              && records[b].expiresAt <= now)
                             ==> old(records)[a].expiresAt <= records[b].expiresAt
    {
      var gone;
      records, gone := CleanupBatch(records, now, CLEANUP_BATCH_SIZE);
      removed := |gone|;
      assert ExpiredKeys(old(records), now) == set k | k in old(records) && old(records)[k].expiresAt <= now;
    }
  }

  // ---------------------------------------------------------------- every interleaving of handlers

  type RecordOp = Op<Key, StoredResponse>
  type RecordState = State<Key, StoredResponse>

  /** Records and runs together; both are written by the create transaction only. */
  datatype Gate = Gate(store: RecordState, runs: map<string, RunBody>)

  predicate TooLarge(v: StoredResponse) { |v.body.content| > MAX_STORED_RESPONSE_BYTES }

  function ReserveAnswer(g: Gate, k: Key, v: StoredResponse): Answer<StoredResponse> {
    ReserveTx(g.store.table, g.store.now, RECORD_TTL_SECONDS, k, v, RequireMatch).1
  }

  /** The create fails as a whole: its response is too large to store, which is found out before any record is
      looked at, or it would insert a run under a taken id. */
  predicate RolledBack(g: Gate, op: RecordOp) {
    op.Reserve? && (TooLarge(op.v) || (ReserveAnswer(g, op.k, op.v).Fresh? && op.v.resourceId in g.runs))
  }

  function GateApply(g: Gate, op: RecordOp): Gate {
    if RolledBack(g, op) then g
    else
      var store := Apply(g.store, op, RECORD_RULES);
      Gate(store, if op.Reserve? && ReserveAnswer(g, op.k, op.v).Fresh? then g.runs[op.v.resourceId := op.v.body]
                  else g.runs)
  }

  /** What the caller of a lookup or a create is told. */
  function Says(g: Gate, op: RecordOp): Reply {
    match op
    case Reserve(k, v) =>
      if TooLarge(v) then Internal("Action response exceeds the idempotency storage bound")
      else if RolledBack(g, op) then Internal("persist idempotent Action")
      else Respond(ReserveAnswer(g, k, v), v)
    case Peek(k, v) => Respond(PeekQuery(g.store.table, g.store.now, k, v, RequireMatch), v)
    case _ => Proceed
  }

  function GateExec(g: Gate, ops: seq<RecordOp>): Gate { Run(GateApply, g, ops) }

  const CLOSED: Gate := Gate(Empty(), map[])

  /** Create transactions store records of the shape the gateway builds. */
  predicate WellFormed(op: RecordOp) {
    op.Reserve? ==> op.v == RecordFor(op.v.operation, op.v.requestFingerprint, op.v.body)
  }

  type Log = seq<Outcome<Key, StoredResponse>>

  ghost predicate TableOk(table: RecordTable, runs: map<string, RunBody>) {
    forall k :: k in table ==> Names(runs, table[k].value)
  }

  ghost predicate LogOk(log: Log, runs: map<string, RunBody>) {
    && (forall i :: 0 <= i < |log| && log[i].answer.Fresh? ==> Names(runs, log[i].offered))
    && (forall i, j :: 0 <= i < j < |log| && log[i].answer.Fresh? && log[j].answer.Fresh? ==>
          log[i].offered.resourceId != log[j].offered.resourceId)
    && (forall i :: 0 <= i < |log| && log[i].answer.Replay? ==> WellFormedRecord(log[i].answer.stored))
    && (forall id :: id in runs ==> Made(log, id))
  }

  ghost predicate GateInv(g: Gate) {
    Inv(g.store, RECORD_RULES) && TableOk(g.store.table, g.runs) && LogOk(g.store.log, g.runs)
  }

  predicate WellFormedRecord(stored: StoredResponse) {
    stored.responseStatus == ACCEPTED && stored.body.id == stored.resourceId
  }

  predicate Names(runs: map<string, RunBody>, stored: StoredResponse) {
    WellFormedRecord(stored) && stored.resourceId in runs && runs[stored.resourceId] == stored.body
  }

  ghost predicate Made(log: Log, id: string) {
    exists i :: 0 <= i < |log| && log[i].answer.Fresh? && log[i].offered.resourceId == id
  }

  lemma {:induction false} LogOkOther(log: Log, runs: map<string, RunBody>, o: Outcome<Key, StoredResponse>)
    requires LogOk(log, runs) && !o.answer.Fresh?
    requires o.answer.Replay? ==> WellFormedRecord(o.answer.stored)
    ensures LogOk(log + [o], runs)
  {
    forall id | id in runs ensures Made(log + [o], id) {
      var i :| 0 <= i < |log| && log[i].answer.Fresh? && log[i].offered.resourceId == id;
      assert (log + [o])[i] == log[i];
    }
  }

  lemma {:induction false} LogOkFresh(log: Log, runs: map<string, RunBody>, o: Outcome<Key, StoredResponse>)
    requires LogOk(log, runs) && o.answer.Fresh? && WellFormedRecord(o.offered) && o.offered.resourceId !in runs
    ensures LogOk(log + [o], runs[o.offered.resourceId := o.offered.body])
  {
    forall id | id in runs ensures Made(log + [o], id) {
      var i :| 0 <= i < |log| && log[i].answer.Fresh? && log[i].offered.resourceId == id;
      assert (log + [o])[i] == log[i];
    }
    assert (log + [o])[|log|] == o;
  }

  lemma {:induction false} GateReserve(g: Gate, k: Key, v: StoredResponse)
    requires GateInv(g) && WellFormedRecord(v) && !RolledBack(g, Reserve(k, v))
    ensures var g' := GateApply(g, Reserve(k, v));
            TableOk(g'.store.table, g'.runs) && LogOk(g'.store.log, g'.runs)
  {
    OnlyFreshWrites(g.store.table, g.store.now, RECORD_TTL_SECONDS, k, v, RequireMatch);
    var answer := ReserveAnswer(g, k, v);
    var o := Outcome(g.store.now, k, v, answer);
    hide Inv, LogOk;
    if answer.Fresh? {
      LogOkFresh(g.store.log, g.runs, o);
    } else {
      LogOkOther(g.store.log, g.runs, o);
    }
  }

  lemma {:induction false} GatePeek(g: Gate, k: Key, v: StoredResponse)
    requires GateInv(g)
    ensures LogOk(GateApply(g, Peek(k, v)).store.log, g.runs)
  {
    hide Inv, LogOk;
    LogOkOther(g.store.log, g.runs,
               Outcome(g.store.now, k, v, PeekQuery(g.store.table, g.store.now, k, v, RequireMatch)));
  }

  lemma {:induction false} GateStep(g: Gate, op: RecordOp)
    requires GateInv(g) && WellFormed(op)
    ensures GateInv(GateApply(g, op))
  {
    StepKeepsInv(g.store, op, RECORD_RULES);
    hide Inv, LogOk, RolledBack;
    match op
    case Reserve(k, v) => if !RolledBack(g, op) { GateReserve(g, k, v); }
    case Peek(k, v) => GatePeek(g, k, v);
    case _ =>
  }

  lemma {:induction false} GateExecInv(g: Gate, ops: seq<RecordOp>)
    requires GateInv(g) && forall i :: 0 <= i < |ops| ==> WellFormed(ops[i])
    ensures GateInv(GateExec(g, ops))
    decreases |ops|
  {
    if ops != [] {
      GateStep(g, ops[0]);
      GateExecInv(GateApply(g, ops[0]), ops[1..]);
    }
  }

  /** While a record is live it decides what every lookup and create with its key is told. */
  lemma {:induction false} LiveRecordAnswers(g: Gate, op: RecordOp)
    requires (op.Peek? || op.Reserve?) && op.k in g.store.table
    requires !Expired(g.store.table[op.k], g.store.now) && WellFormedRecord(g.store.table[op.k].value)
    ensures var stored := g.store.table[op.k].value;
            && Says(g, op)
               == (if op.Reserve? && TooLarge(op.v)
                   then Internal("Action response exceeds the idempotency storage bound")
                   else if RequireMatch(stored, op.v) then Accepted(stored.body, true) else IdempotencyConflict)
            && GateApply(g, op).runs == g.runs
  {
    hide TooLarge, RequireMatch;
  }

  /** Over every interleaving of lookups, creates, clock ticks and cleanups, from the moment a create has stored
      its record until a day later: a lookup or create with the same key is told the first body, marked
      replayed, if it matches, and a conflict if it does not, except that a create whose own response is too
      large is told an internal error; and no further run is inserted. */
  lemma {:induction false} RetryIsAnswered(ops: seq<RecordOp>, i: nat, op: RecordOp)
    requires forall n :: 0 <= n < |ops| ==> WellFormed(ops[n])
    requires op.Peek? || op.Reserve?
    ensures var g := GateExec(CLOSED, ops);
            && i < |g.store.log| && g.store.log[i].answer.Fresh? && g.store.log[i].k == op.k
            && g.store.now < g.store.log[i].at + 86_400 ==>
              var first := g.store.log[i].offered;
              && Says(g, op)
                 == (if op.Reserve? && |op.v.body.content| > 65_536
                     then Internal("Action response exceeds the idempotency storage bound")
                     else if op.v.operation == first.operation && op.v.requestFingerprint == first.requestFingerprint
                     then Accepted(first.body, true) else IdempotencyConflict)
              && GateApply(g, op).runs == g.runs
  {
    GateExecInv(CLOSED, ops);
    var g := GateExec(CLOSED, ops);
    hide GateExec, Says, GateApply, Windowed, AllBacked, LogOk;
    if i < |g.store.log| && FreshOn(g.store.log[i], op.k) && g.store.now < g.store.log[i].at + RECORD_TTL_SECONDS {
      LiveRecordAnswers(g, op);
    }
  }

  lemma {:induction false} ReachableGate(ops: seq<RecordOp>)
    requires forall n :: 0 <= n < |ops| ==> WellFormed(ops[n])
    ensures GateInv(GateExec(CLOSED, ops))
  {
    GateExecInv(CLOSED, ops);
  }

  /** While no record is live under its key, a lookup lets the handler go on and a create goes through. */
  lemma {:induction false} FreeKeyCreates(g: Gate, op: RecordOp)
    requires (op.Peek? || op.Reserve?) && op.k !in Live(g.store.table, g.store.now)
    ensures op.Peek? ==> Says(g, op) == Proceed
    ensures op.Reserve? && |op.v.body.content| <= 65_536 && op.v.resourceId !in g.runs ==>
              && Says(g, op) == Accepted(op.v.body, false)
              && GateApply(g, op).runs == g.runs[op.v.resourceId := op.v.body]
              && GateApply(g, op).store.table == g.store.table[op.k := Entry(op.v, g.store.now + 86_400)]
  {
    if op.Reserve? {
      OnlyFreshWrites(g.store.table, g.store.now, RECORD_TTL_SECONDS, op.k, op.v, RequireMatch);
      hide RequireMatch;
    }
  }

  lemma {:induction false} LiveKeyHasFirst(g: Gate, k: Key) returns (i: nat)
    requires GateInv(g) && k in Live(g.store.table, g.store.now)
    ensures i < |g.store.log| && FreshOn(g.store.log[i], k) && g.store.now < g.store.log[i].at + RECORD_TTL_SECONDS
  {
    assert Backed(g.store.log, k, g.store.table[k], RECORD_TTL_SECONDS);
    i :| 0 <= i < |g.store.log| && FreshOn(g.store.log[i], k)
         && g.store.table[k] == Entry(g.store.log[i].offered, g.store.log[i].at + RECORD_TTL_SECONDS);
    hide GateInv;
  }

  /** Outside every record's day a lookup lets the handler go on, and a create stores its record, inserts its run
      and says so, unless its response is too large or its run id is taken. */
  lemma {:induction false} FirstRequestCreates(ops: seq<RecordOp>, op: RecordOp)
    requires forall n :: 0 <= n < |ops| ==> WellFormed(ops[n])
    requires op.Peek? || op.Reserve?
    ensures var g := GateExec(CLOSED, ops);
            var log := g.store.log;
            (forall i :: (0 <= i < |log| && log[i].answer.Fresh? && log[i].k == op.k)
                         ==> g.store.now >= log[i].at + 86_400) ==>
              && (op.Peek? ==> Says(g, op) == Proceed)
              && (op.Reserve? && |op.v.body.content| <= 65_536 && op.v.resourceId !in g.runs ==>
                    && Says(g, op) == Accepted(op.v.body, false)
                    && GateApply(g, op).runs == g.runs[op.v.resourceId := op.v.body]
                    && GateApply(g, op).store.table
                       == g.store.table[op.k := Entry(op.v, g.store.now + 86_400)])
  {
    hide GateExec, GateInv, Says, GateApply, Live, WellFormed;
    ReachableGate(ops);
    var g := GateExec(CLOSED, ops);
    if op.k in Live(g.store.table, g.store.now) {
      var i := LiveKeyHasFirst(g, op.k);
    } else {
      FreeKeyCreates(g, op);
    }
  }

  function Oversized(): string { seq(MAX_STORED_RESPONSE_BYTES + 1, _ => 'x') }

  /** A retry that matches its live record and is told an internal error all the same: a second create of the
      same request, raced past its lookup, whose own response is one byte too long. */
  lemma {:induction false} OversizedRetryIsRefused(k: Key) returns (ops: seq<RecordOp>, retry: RecordOp)
    ensures forall n :: 0 <= n < |ops| ==> WellFormed(ops[n])
    ensures WellFormed(retry) && retry.Reserve? && retry.k == k
    ensures var g := GateExec(CLOSED, ops);
            && k in Live(g.store.table, g.store.now)
            && retry.v.operation == g.store.table[k].value.operation
            && retry.v.requestFingerprint == g.store.table[k].value.requestFingerprint
            && Says(g, retry).Internal?
  {
    var first := RecordFor("o", "f", RunBody("1", ""));
    ops := [Reserve(k, first)];
    retry := Reserve(k, RecordFor("o", "f", RunBody("2", Oversized())));
    assert ops[1..] == [];
    var g := GateApply(CLOSED, ops[0]);
    assert GateExec(CLOSED, ops) == GateExec(g, []) == g;
    assert !RolledBack(CLOSED, ops[0]);
    assert g.store.table == map[k := Entry(first, RECORD_TTL_SECONDS)];
  }

  /** The answers given, two at a time: of two answered requests with the same key of which the first created
      the record and the second falls into its day, a matching one got the first body, marked replayed, and a
      different one a conflict. */
  lemma {:induction false} ReplaysTheFirstAnswer(ops: seq<RecordOp>, i: nat, j: nat)
    requires forall n :: 0 <= n < |ops| ==> WellFormed(ops[n])
    ensures var log := GateExec(CLOSED, ops).store.log;
            i < j < |log| && log[i].answer.Fresh? && log[i].k == log[j].k && log[j].at < log[i].at + 86_400 ==>
              var first, later := log[i].offered, log[j].offered;
              && Respond(log[i].answer, first) == Accepted(first.body, false)
              && Respond(log[j].answer, later)
                 == if later.operation == first.operation && later.requestFingerprint == first.requestFingerprint
                    then Accepted(first.body, true) else IdempotencyConflict
  {
    GateExecInv(CLOSED, ops);
  }

  /** A key creates at most one run per record lifetime, different lifetimes create different runs, and
      every run was made by exactly such a first answer. */
  lemma {:induction false} OneRunPerLifetime(ops: seq<RecordOp>, i: nat, j: nat)
    requires forall n :: 0 <= n < |ops| ==> WellFormed(ops[n])
    ensures var g := GateExec(CLOSED, ops);
            var log := g.store.log;
            && (i < j < |log| && log[i].answer.Fresh? && log[j].answer.Fresh? ==>
                  && log[i].offered.resourceId != log[j].offered.resourceId
                  && (log[i].k == log[j].k ==> log[j].at >= log[i].at + 86_400))
            && (forall id :: id in g.runs ==> Made(log, id))
  {
    GateExecInv(CLOSED, ops);
  }

  /** Every record, expired or not, names a run that was inserted with exactly the stored body. */
  lemma {:induction false} RecordsNameTheirRuns(ops: seq<RecordOp>, k: Key)
    requires forall n :: 0 <= n < |ops| ==> WellFormed(ops[n])
    ensures var g := GateExec(CLOSED, ops);
            k in g.store.table ==>
              var stored := g.store.table[k].value;
              stored.resourceId in g.runs && g.runs[stored.resourceId] == stored.body
              && ReplyTo(stored) == Accepted(stored.body, true)
  {
    GateExecInv(CLOSED, ops);
  }

  // ---------------------------------------------------------------- cleanup never shows

  /** The same live entries, clock, answers so far and runs. */
  ghost predicate Alike(g: Gate, h: Gate) { Abstract(g.store) == Abstract(h.store) && g.runs == h.runs }

  lemma {:induction false} AlikeAnswers(g: Gate, h: Gate, k: Key, v: StoredResponse)
    requires Alike(g, h)
    ensures ReserveAnswer(g, k, v) == ReserveAnswer(h, k, v)
    ensures PeekQuery(g.store.table, g.store.now, k, v, RequireMatch)
         == PeekQuery(h.store.table, h.store.now, k, v, RequireMatch)
  {
    hide RequireMatch;
    assert k in Live(g.store.table, g.store.now) <==> k in Live(h.store.table, h.store.now);
    assert k in Live(g.store.table, g.store.now)
           ==> Live(g.store.table, g.store.now)[k] == Live(h.store.table, h.store.now)[k];
  }

  /** Gates that are alike say the same and step to gates that are alike. */
  lemma {:induction false} AlikeStep(g: Gate, h: Gate, op: RecordOp)
    requires Alike(g, h)
    ensures Says(g, op) == Says(h, op) && Alike(GateApply(g, op), GateApply(h, op))
  {
    StepRefines(g.store, op, RECORD_RULES);
    StepRefines(h.store, op, RECORD_RULES);
    if op.Peek? || op.Reserve? {
      AlikeAnswers(g, h, op.k, op.v);
    }
    hide Abstract, Apply, AbstractApply, ReserveAnswer, PeekQuery, TooLarge, Respond;
  }

  lemma {:induction false} CleanupStaysAlike(g: Gate, op: RecordOp)
    requires op.Cleanup?
    ensures Alike(GateApply(g, op), g)
  {
    StepRefines(g.store, op, RECORD_RULES);
  }

  lemma {:induction false} GateIgnoresCleanup(g: Gate, h: Gate, ops: seq<RecordOp>)
    requires Alike(g, h)
    ensures Alike(GateExec(g, ops), GateExec(h, WithoutCleanup(ops)))
    decreases |ops|
  {
    hide GateApply, Abstract;
    if ops != [] {
      var op, rest := ops[0], WithoutCleanup(ops[1..]);
      if op.Cleanup? {
        CleanupStaysAlike(g, op);
        GateIgnoresCleanup(GateApply(g, op), h, ops[1..]);
        assert WithoutCleanup(ops) == rest;
      } else {
        AlikeStep(g, h, op);
        GateIgnoresCleanup(GateApply(g, op), GateApply(h, op), ops[1..]);
        assert WithoutCleanup(ops) == [op] + rest && ([op] + rest)[1..] == rest;
      }
    }
  }

  /** Two histories of creates, lookups and clock ticks that differ only in cleanup lead to gates with the same
      runs and the same answers so far, and the next request is told the same by both. */
  lemma {:induction false} CleanupNeverShows(ops: seq<RecordOp>, others: seq<RecordOp>, next: RecordOp)
    requires WithoutCleanup(ops) == WithoutCleanup(others)
    ensures var g, h := GateExec(CLOSED, ops), GateExec(CLOSED, others);
            Says(g, next) == Says(h, next) && g.runs == h.runs && g.store.log == h.store.log
  {
    hide GateApply, Says;
    GateIgnoresCleanup(CLOSED, CLOSED, ops);
    GateIgnoresCleanup(CLOSED, CLOSED, others);
    AlikeStep(GateExec(CLOSED, ops), GateExec(CLOSED, others), next);
  }
}
