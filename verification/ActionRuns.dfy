/** The `action_runs` and `action_logs` tables, the SQL statements that change them, and the
    gateway calls (create, claim, renew, finish) built on those statements.

    One statement is one atomic step.  `now` is the database clock in seconds; `millis` values come
    from the gateway's own clock and are not assumed to agree with it or to be monotone. */
module ActionRuns {
  import opened Prelude

  type RunId = string
  type WorkerId = string
  type RunTable = map<RunId, ActionRun>
  type LogTable = map<RunId, string>

  const LEASE_SECONDS: int := 30

  datatype RunStatus = Queued | Running | Success | Failure | Error {
    predicate Terminal() { Success? || Failure? || Error? }
  }

  /** The columns no statement writes after the insert. */
  datatype Provenance = Provenance(
    repo: string, commitId: string, branch: string, trigger: string, actor: string,
    workflow: string, releaseVersion: string, releaseManifestSha256: string)

  datatype ActionJob = ActionJob(id: string, name: string, status: RunStatus, exitCode: Option<int>)

  datatype ActionRun = ActionRun(
    provenance: Provenance, provider: string, sandboxId: string,
    status: RunStatus, conclusion: string,
    createdAtMillis: int, startedAtMillis: int, finishedAtMillis: int, durationMs: nat,
    attempt: nat, jobs: seq<ActionJob>,
    lockedBy: Option<WorkerId>, leaseExpiresAt: Option<int>)

  /** What CI reports.  Only terminal outcomes are ever reported. */
  datatype FinishedRun = FinishedRun(
    status: RunStatus, conclusion: string, exitCode: Option<int>, logs: string,
    provider: string, sandboxId: string)

  /** The row inserted for a new run: queued, unclaimed, never attempted. */
  function BuildRun(id: RunId, provenance: Provenance, provider: string, millis: int): ActionRun {
    ActionRun(provenance, provider, "", Queued, "", millis, 0, 0, 0, 0,
              [ActionJob(id + "-job-1", "clotho-" + provenance.workflow, Queued, None)], None, None)
  }

  /** The condition shared by the claim statement and the recovery scan. */
  predicate Claimable(run: ActionRun, now: int) {
    run.status.Queued?
    || (run.status.Running? && (run.leaseExpiresAt.None? || run.leaseExpiresAt.value < now))
  }

  function Claimed(run: ActionRun, w: WorkerId, now: int, millis: int): ActionRun {
    run.(status := Running, conclusion := "", startedAtMillis := millis, finishedAtMillis := 0,
         durationMs := 0, lockedBy := Some(w), leaseExpiresAt := Some(now + LEASE_SECONDS),
         attempt := run.attempt + 1)
  }

  predicate HeldBy(run: ActionRun, w: WorkerId) {
    run.lockedBy == Some(w)
  }

  function Renewed(run: ActionRun, now: int): ActionRun {
    run.(leaseExpiresAt := Some(now + LEASE_SECONDS))
  }

  function Duration(started: int, finished: int): nat {
    if started > 0 && finished > started then finished - started else 0
  }

  /** The run a worker computes from the row it read. */
  function Finished(run: ActionRun, update: FinishedRun, finishedAt: int): ActionRun {
    run.(status := update.status,
         conclusion := update.conclusion,
         finishedAtMillis := finishedAt,
         durationMs := Duration(run.startedAtMillis, finishedAt),
         provider := if update.provider != "" then update.provider else run.provider,
         sandboxId := update.sandboxId,
         jobs := if run.jobs == [] then []
                 else [run.jobs[0].(status := update.status, exitCode := update.exitCode)] + run.jobs[1..])
  }

  /** The guarded update: the computed columns copied over the current row, and the lease dropped. */
  function Overwritten(row: ActionRun, computed: ActionRun): ActionRun {
    row.(status := computed.status, conclusion := computed.conclusion,
         provider := computed.provider, sandboxId := computed.sandboxId,
         startedAtMillis := computed.startedAtMillis, finishedAtMillis := computed.finishedAtMillis,
         durationMs := computed.durationMs, jobs := computed.jobs,
         lockedBy := None, leaseExpiresAt := None)
  }

  /** Finishing as one indivisible change of the row: the meaning the split read-compute-update is
      supposed to have. */
  function AtomicallyFinished(row: ActionRun, update: FinishedRun, finishedAt: int): ActionRun {
    Finished(row, update, finishedAt).(lockedBy := None, leaseExpiresAt := None)
  }

  /** An `update ... where` on the primary key: the row is replaced when it exists and passes the guard. */
  function UpdateRow(runs: RunTable, id: RunId, guard: ActionRun -> bool, change: ActionRun -> ActionRun)
    : Affected<RunTable>
  {
    if id in runs && guard(runs[id]) then Affected(runs[id := change(runs[id])], 1) else Affected(runs, 0)
  }

  /** The in-place update of the run a worker has read. */
  method ApplyFinished(run: ActionRun, update: FinishedRun, finishedAt: int) returns (r: ActionRun)
    ensures r == Finished(run, update, finishedAt)
    ensures r.status == update.status && r.conclusion == update.conclusion && r.sandboxId == update.sandboxId
    ensures r.finishedAtMillis == finishedAt
    ensures run.startedAtMillis > 0 && finishedAt >= run.startedAtMillis
            ==> r.durationMs == finishedAt - run.startedAtMillis
    ensures run.startedAtMillis <= 0 || finishedAt < run.startedAtMillis ==> r.durationMs == 0
    ensures r.provider == if update.provider == "" then run.provider else update.provider
    ensures |r.jobs| == |run.jobs| && forall i :: 1 <= i < |run.jobs| ==> r.jobs[i] == run.jobs[i]
    ensures run.jobs != []
            ==> r.jobs[0] == ActionJob(run.jobs[0].id, run.jobs[0].name, update.status, update.exitCode)
    ensures r.provenance == run.provenance && r.createdAtMillis == run.createdAtMillis
            && r.startedAtMillis == run.startedAtMillis && r.attempt == run.attempt
            && r.lockedBy == run.lockedBy && r.leaseExpiresAt == run.leaseExpiresAt
  {
    r := run;
    r := r.(status := update.status);
    r := r.(conclusion := update.conclusion);
    r := r.(finishedAtMillis := finishedAt);
    var elapsed := 0;
    if r.startedAtMillis > 0 {
      elapsed := if finishedAt - r.startedAtMillis > 0 then finishedAt - r.startedAtMillis else 0;
    }
    r := r.(durationMs := elapsed);
    if update.provider != "" {
      r := r.(provider := update.provider);
    }
    r := r.(sandboxId := update.sandboxId);
    if |r.jobs| > 0 {
      var job := r.jobs[0].(status := r.status);
      r := r.(jobs := r.jobs[0 := job.(exitCode := update.exitCode)]);
      assert r.jobs == [r.jobs[0]] + run.jobs[1..];
    }
  }

  /** The durable store as one gateway replica drives it. */
  class ActionStore {
    var runs: RunTable
    var logs: LogTable

    constructor ()
      ensures runs == map[] && logs == map[]
    {
      runs, logs := map[], map[];
    }

    /** Run and empty log are inserted in one transaction; a duplicate id rolls both back. */
    method CreateRun(id: RunId, provenance: Provenance, provider: string, millis: int)
      returns (r: Result<ActionRun, string>)
      modifies this
      ensures r.Ok? <==> id !in old(runs) && id !in old(logs)
      ensures r.Ok? ==> r.value == ActionRun(
                provenance, provider, "", Queued, "", millis, 0, 0, 0, 0,
                [ActionJob(id + "-job-1", "clotho-" + provenance.workflow, Queued, None)], None, None)
      ensures r.Ok? ==> r.value == BuildRun(id, provenance, provider, millis)
                        && runs == old(runs)[id := r.value] && logs == old(logs)[id := ""]
      ensures r.Err? ==> runs == old(runs) && logs == old(logs)
    {
      var run := BuildRun(id, provenance, provider, millis);
      if id in runs {
        return Err("persist durable Action");
      }
      if id in logs {
        return Err("persist durable Action log");
      }
      runs := runs[id := run];
      logs := logs[id := ""];
      return Ok(run);
    }

    method ClaimRun(id: RunId, workerId: WorkerId, now: int, millis: int) returns (claimed: Option<WorkerId>)
      modifies this`runs
      ensures var stmt := UpdateRow(old(runs), id, r => Claimable(r, now), r => Claimed(r, workerId, now, millis));
              runs == stmt.table && claimed == if stmt.rows == 1 then Some(workerId) else None
      ensures claimed.Some?
              <==> id in old(runs)
                   && (old(runs)[id].status == Queued
                       || (old(runs)[id].status == Running
                           && (old(runs)[id].leaseExpiresAt == None || old(runs)[id].leaseExpiresAt.value < now)))
      ensures claimed.Some? ==>
                var r := old(runs)[id];
                runs == old(runs)[id := ActionRun(
                  r.provenance, r.provider, r.sandboxId, Running, "", r.createdAtMillis, millis, 0, 0,
                  r.attempt + 1, r.jobs, Some(workerId), Some(now + 30))]
    {
      claimed := None;
      if id in runs {
        var run := runs[id];
        if run.status == Queued || (run.status == Running
                                    && (run.leaseExpiresAt == None || run.leaseExpiresAt.value < now)) {
          run := run.(status := Running, conclusion := "", startedAtMillis := millis);
          run := run.(finishedAtMillis := 0, durationMs := 0);
          run := run.(lockedBy := Some(workerId), leaseExpiresAt := Some(now + 30));
          run := run.(attempt := run.attempt + 1);
          runs := runs[id := run];
          claimed := Some(workerId);
        }
      }
    }

    method RenewRunLease(id: RunId, w: WorkerId, now: int) returns (renewed: bool)
      modifies this`runs
      ensures var stmt := UpdateRow(old(runs), id, r => HeldBy(r, w) && r.status.Running?, r => Renewed(r, now));
              runs == stmt.table && (renewed <==> stmt.rows == 1)
      ensures renewed <==> id in old(runs) && old(runs)[id].lockedBy == Some(w) && old(runs)[id].status == Running
      ensures runs == if renewed then old(runs)[id := old(runs)[id].(leaseExpiresAt := Some(now + 30))] else old(runs)
    {
      renewed := false;
      if id in runs && runs[id].lockedBy == Some(w) && runs[id].status == Running {
        runs := runs[id := runs[id].(leaseExpiresAt := Some(now + 30))];
        renewed := true;
      }
    }

    method UpdateRunLeased(id: RunId, run: ActionRun, w: WorkerId) returns (updated: bool)
      modifies this`runs
      ensures var stmt := UpdateRow(old(runs), id, r => HeldBy(r, w), r => Overwritten(r, run));
              runs == stmt.table && (updated <==> stmt.rows == 1)
      ensures updated <==> id in old(runs) && old(runs)[id].lockedBy == Some(w)
      ensures updated ==>
                var r := old(runs)[id];
                runs == old(runs)[id := ActionRun(
                  r.provenance, run.provider, run.sandboxId, run.status, run.conclusion, r.createdAtMillis,
                  run.startedAtMillis, run.finishedAtMillis, run.durationMs, r.attempt, run.jobs, None, None)]
    {
      updated := false;
      if id in runs && runs[id].lockedBy == Some(w) {
        var row := runs[id];
        row := row.(status := run.status, conclusion := run.conclusion);
        row := row.(provider := run.provider, sandboxId := run.sandboxId);
        row := row.(startedAtMillis := run.startedAtMillis, finishedAtMillis := run.finishedAtMillis);
        row := row.(durationMs := run.durationMs, jobs := run.jobs);
        row := row.(lockedBy := None, leaseExpiresAt := None);
        runs := runs[id := row];
        updated := true;
      }
    }

    /** Read, compute, guarded update, log.  Undisturbed, it is the atomic finish followed by the log
        write of a winner; a worker that no longer holds the row changes neither table. */
    method FinishRun(id: RunId, w: WorkerId, update: FinishedRun, finishedAt: int)
      modifies this
      ensures runs == UpdateRow(old(runs), id, r => HeldBy(r, w), r => AtomicallyFinished(r, update, finishedAt)).table
      ensures logs == if id in old(runs) && HeldBy(old(runs)[id], w) then old(logs)[id := update.logs] else old(logs)
    {
      if id !in runs {
        return;
      }
      var run := ApplyFinished(runs[id], update, finishedAt);
      var won := UpdateRunLeased(id, run, w);
      if !won {
        return;
      }
      logs := logs[id := update.logs];
    }
  }
}
