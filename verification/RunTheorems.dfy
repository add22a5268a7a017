/** What every behaviour of the Action-run protocol guarantees.  `Exec(Init(m), steps)` ranges over all
    interleavings; `more` over everything that can happen afterwards. */
module RunTheorems {
  import opened Prelude
  import opened ActionRuns
  import opened RunProtocol
  import opened Behaviours

  lemma {:induction false} ReachableInv(m: Manifests, steps: seq<Step>)
    ensures Inv(Exec(Init(m), steps))
  {
    ExecKeepsInv(Init(m), steps);
  }

  // ---------------------------------------------------------------- leases and claims

  /** At any moment at most one worker of a run has been promised a lease that is still running. */
  lemma {:induction false} OneLeaseAtATime(m: Manifests, steps: seq<Step>, v: WorkerId, w: WorkerId)
    ensures var s := Exec(Init(m), steps);
            v in s.workers && w in s.workers && s.workers[v].run == s.workers[w].run
            && s.workers[v].grantedUntil >= s.now && s.workers[w].grantedUntil >= s.now
            ==> v == w
  {
    ReachableInv(m, steps);
  }

  /** A claim that takes effect finds no unexpired lease on the run; it raises `attempt` by one, makes the
      fresh worker the holder for thirty seconds, and touches no other run. */
  lemma {:induction false} ClaimFindsNoLease(m: Manifests, steps: seq<Step>, w: WorkerId, id: RunId, millis: int)
    ensures var s := Exec(Init(m), steps);
            var s' := Apply(s, Claim(w, id, millis));
            s'.runs != s.runs ==>
              && w !in s.workers && id in s.runs && !s.runs[id].row.status.Terminal()
              && (forall v :: v in s.workers && s.workers[v].run == id ==> s.workers[v].grantedUntil < s.now)
              && s'.runs[id].row.attempt == s.runs[id].row.attempt + 1
              && HeldBy(s'.runs[id].row, w) && s'.workers[w].grantedUntil == s.now + 30
              && s'.runs == s.runs[id := s'.runs[id]]
              && var r := s.runs[id].row;
                 s'.runs[id].row == ActionRun(
                   r.provenance, r.provider, r.sandboxId, Running, "", r.createdAtMillis, millis, 0, 0,
                   r.attempt + 1, r.jobs, Some(w), Some(s.now + 30))
  {
    ReachableInv(m, steps);
    var s := Exec(Init(m), steps);
    if id in s.runs {
      assert RecordOk(s.runs[id]);
      forall v | v in s.workers && s.workers[v].run == id && Claimable(s.runs[id].row, s.now)
        ensures s.workers[v].grantedUntil < s.now
      {
        assert Agree(s.runs[id], v, s.workers[v], s.now);
      }
    }
  }

  /** A fresh worker's claim takes effect exactly on runs that have not ended and on which every promise ever
      made has expired. */
  lemma {:induction false} ClaimTakesEffectExactly(
      m: Manifests, steps: seq<Step>, w: WorkerId, id: RunId, millis: int)
    requires w !in Exec(Init(m), steps).workers
    ensures var s := Exec(Init(m), steps);
            Apply(s, Claim(w, id, millis)).runs != s.runs
            <==> && id in s.runs
                 && (s.runs[id].row.status == Queued || s.runs[id].row.status == Running)
                 && forall v :: v in s.workers && s.workers[v].run == id ==> s.workers[v].grantedUntil < s.now
  {
    ClaimFindsNoLease(m, steps, w, id, millis);
    ReachableInv(m, steps);
    var s := Exec(Init(m), steps);
    if id in s.runs {
      var rec := s.runs[id];
      assert RecordOk(rec);
      if rec.row.status.Running? && !Claimable(rec.row, s.now) {
        var last := rec.claims[|rec.claims| - 1];
        RunsStayWithWorkers(m, steps, id, last);
        assert Agree(rec, last, s.workers[last], s.now);
      }
      if Claimable(rec.row, s.now) {
        assert Apply(s, Claim(w, id, millis)).runs[id].row.attempt == rec.row.attempt + 1;
      }
    }
  }

  /** A heartbeat of a live holder promises thirty seconds from now, and changes nothing but the lease. */
  lemma {:induction false} RenewalPromisesThirtySeconds(m: Manifests, steps: seq<Step>, w: WorkerId)
    ensures var s := Exec(Init(m), steps);
            var s' := Apply(s, Renew(w));
            w in s.workers && !s.workers[w].phase.Crashed? && s.workers[w].run in s.runs
            && HeldBy(s.runs[s.workers[w].run].row, w) ==>
              var id := s.workers[w].run;
              && s'.workers[w].grantedUntil == s.now + 30
              && s'.runs == s.runs[id := s.runs[id].(row := s.runs[id].row.(leaseExpiresAt := Some(s.now + 30)))]
  {
    ReachableInv(m, steps);
    var s := Exec(Init(m), steps);
    if w in s.workers {
      assert RecordOk(s.runs[s.workers[w].run]);
    }
    hide Exec;
  }

  /** The row as the source's own columns: reported outcome, provider and other jobs kept where nothing replaces
      them, the lease dropped. */
  function FinishedRow(r: ActionRun, u: FinishedRun, start: int, at: int): ActionRun {
    ActionRun(
      r.provenance, if u.provider == "" then r.provider else u.provider, u.sandboxId, u.status, u.conclusion,
      r.createdAtMillis, start, at, if start > 0 && at >= start then at - start else 0, r.attempt,
      seq(|r.jobs|, i requires 0 <= i < |r.jobs| =>
        if i == 0 then ActionJob(r.jobs[0].id, r.jobs[0].name, u.status, u.exitCode) else r.jobs[i]),
      None, None)
  }

  lemma {:induction false} AtomicFinishColumns(r: ActionRun, u: FinishedRun, at: int)
    ensures AtomicallyFinished(r, u, at) == FinishedRow(r, u, r.startedAtMillis, at)
  {
    assert AtomicallyFinished(r, u, at).jobs == FinishedRow(r, u, r.startedAtMillis, at).jobs;
  }

  lemma {:induction false} GuardedFinishColumns(rec: RunRecord, w: WorkerId, worker: Worker, now: int)
    requires RecordOk(rec) && Agree(rec, w, worker, now)
    ensures var rec' := WorkerStep(rec, w, worker, now, GuardedFinish(w)).0;
            rec' != rec ==>
              && worker.phase.Finishing?
              && rec'.row == FinishedRow(rec.row, worker.phase.update, worker.startedAt, worker.phase.at)
  {
    if worker.phase.Finishing? {
      AtomicFinishColumns(rec.row, worker.phase.update, worker.phase.at);
    }
    hide FinishedRow, AtomicallyFinished, Overwritten;
  }

  /** The finish that takes effect sets every column from the worker's own report, start and finish time and from
      the row, and touches no other run. */
  lemma {:induction false} FinishColumns(m: Manifests, steps: seq<Step>, w: WorkerId)
    ensures var s := Exec(Init(m), steps);
            var s' := Apply(s, GuardedFinish(w));
            s'.runs != s.runs ==>
              && w in s.workers && s.workers[w].run in s.runs && s.workers[w].phase.Finishing?
              && var worker := s.workers[w];
                 && worker.run in s'.runs && s'.runs == s.runs[worker.run := s'.runs[worker.run]]
                 && s'.runs[worker.run].row
                    == FinishedRow(s.runs[worker.run].row, worker.phase.update, worker.startedAt, worker.phase.at)
  {
    ReachableInv(m, steps);
    var s := Exec(Init(m), steps);
    hide Exec, WorkerStep, FinishedRow, RecordOk, Agree;
    if w in s.workers {
      var id := s.workers[w].run;
      GuardedFinishColumns(s.runs[id], w, s.workers[w], s.now);
      assert s.runs[id := s.runs[id]] == s.runs;
    }
  }

  /** `attempt` counts the successful claims, all by different workers; at most one finish takes effect,
      it takes effect exactly when the run is terminal, it is the last claimer's, and row and log are the
      ones it reported, with start time and duration those of that claimer's own attempt. */
  lemma {:induction false} OneFinishByLastClaimer(m: Manifests, steps: seq<Step>, id: RunId)
    ensures var s := Exec(Init(m), steps);
            id in s.runs ==>
              var rec := s.runs[id];
              && rec.row.attempt == |rec.claims|
              && (forall i, j :: 0 <= i < j < |rec.claims| ==> rec.claims[i] != rec.claims[j])
              && |rec.finishes| <= 1
              && (rec.row.status.Terminal() <==> rec.finishes != [])
              && (rec.finishes != [] ==>
                    && Won(rec, rec.finishes[0])
                    && rec.finishes[0].w in s.workers
                    && rec.row.startedAtMillis == s.workers[rec.finishes[0].w].startedAt)
    ensures var s := Exec(Init(m), steps);
            id in s.runs && s.runs[id].row.status.Terminal() ==>
              var row, claims, f := s.runs[id].row, s.runs[id].claims, s.runs[id].finishes[0];
              && claims != [] && f.w == claims[|claims| - 1] && f.w in s.workers
              && row.status == f.update.status && row.conclusion == f.update.conclusion
              && row.sandboxId == f.update.sandboxId && row.finishedAtMillis == f.at
              && (s.runs[id].log == "" || s.runs[id].log == f.update.logs)
              && var start := s.workers[f.w].startedAt;
                 && (start > 0 && f.at >= start ==> row.durationMs == f.at - start)
                 && (start <= 0 || f.at < start ==> row.durationMs == 0)
  {
    ReachableInv(m, steps);
    var s := Exec(Init(m), steps);
    if id in s.runs {
      assert RecordOk(s.runs[id]);
    }
    if id in s.runs && s.runs[id].finishes != [] {
      var w := s.runs[id].finishes[0].w;
      assert RecordOk(s.runs[id]) && w in s.runs[id].claims;
      RunsStayWithWorkers(m, steps, id, w);
    }
  }

  ghost predicate ClaimersKnow(s: System) {
    forall id, w :: id in s.runs && w in s.runs[id].claims ==> w in s.workers && s.workers[w].run == id
  }

  lemma {:induction false} WorkerStepKeepsClaims(rec: RunRecord, w: WorkerId, worker: Worker, now: int, step: Step)
    ensures var (rec', worker') := WorkerStep(rec, w, worker, now, step);
            rec'.claims == rec.claims && worker'.run == worker.run
  {
  }

  lemma {:induction false} ClaimersKnowStep(s: System, step: Step)
    requires ClaimersKnow(s)
    requires forall w :: w in s.workers ==> s.workers[w].run in s.runs
    ensures ClaimersKnow(Apply(s, step))
  {
    hide WorkerStep, Claimed, Claimable, PlanRun, BuildRun;
    if ByWorker(step) && step.w in s.workers {
      var worker := s.workers[step.w];
      WorkerStepKeepsClaims(s.runs[worker.run], step.w, worker, s.now, step);
    }
  }

  lemma {:induction false} ClaimersKnowExec(s: System, steps: seq<Step>)
    requires Inv(s) && ClaimersKnow(s)
    ensures ClaimersKnow(Exec(s, steps))
    decreases |steps|
  {
    if steps != [] {
      StepKeepsInv(s, steps[0]);
      ClaimersKnowStep(s, steps[0]);
      ClaimersKnowExec(Apply(s, steps[0]), steps[1..]);
    }
  }

  lemma {:induction false} RunsStayWithWorkers(m: Manifests, steps: seq<Step>, id: RunId, w: WorkerId)
    requires id in Exec(Init(m), steps).runs && w in Exec(Init(m), steps).runs[id].claims
    ensures w in Exec(Init(m), steps).workers && Exec(Init(m), steps).workers[w].run == id
  {
    ClaimersKnowExec(Init(m), steps);
  }

  // ---------------------------------------------------------------- what later steps cannot change

  /** Claims are only ever appended, provenance never changes, and a terminal row is final. */
  ghost predicate Extends(rec: RunRecord, rec': RunRecord) {
    && rec.claims <= rec'.claims
    && rec.row.provenance == rec'.row.provenance && rec.row.createdAtMillis == rec'.row.createdAtMillis
    && (rec.row.status.Terminal() ==> 
          rec'.row == rec.row && rec'.finishes == rec.finishes && rec'.claims == rec.claims)
  }

  lemma {:induction false} OwnStepExtends(rec: RunRecord, w: WorkerId, worker: Worker, now: int, step: Step)
    requires RecordOk(rec) && Agree(rec, w, worker, now)
    ensures Extends(rec, WorkerStep(rec, w, worker, now, step).0)
  {
  }

  lemma {:induction false} StepExtends(s: System, step: Step, id: RunId)
    requires Inv(s) && id in s.runs
    ensures id in Apply(s, step).runs && Extends(s.runs[id], Apply(s, step).runs[id])
  {
    var rec := s.runs[id];
    StepOnRun(s, step, id);
    hide Agree, RecordOk, WorkerStep, Apply, Extends, ClaimRecord, Pinned;
    ExtendsItself(rec);
    if step.Claim? && Claimable(rec.row, s.now) {
      ClaimExtends(rec, step.w, s.now, step.millis);
    } else if ByWorker(step) && step.w in s.workers && s.workers[step.w].run == id {
      OwnStepExtends(rec, step.w, s.workers[step.w], s.now, step);
    }
  }

  lemma {:induction false} ExtendsItself(rec: RunRecord)
    ensures Extends(rec, rec)
  {
  }

  lemma {:induction false} ClaimExtends(rec: RunRecord, w: WorkerId, now: int, millis: int)
    requires Claimable(rec.row, now)
    ensures Extends(rec, ClaimRecord(rec, w, now, millis))
  {
  }

  lemma {:induction false} ExecExtends(s: System, more: seq<Step>, id: RunId)
    requires Inv(s) && id in s.runs
    ensures id in Exec(s, more).runs && Extends(s.runs[id], Exec(s, more).runs[id])
    decreases |more|
  {
    hide Inv, Apply;
    if more != [] {
      StepKeepsInv(s, more[0]);
      StepExtends(s, more[0], id);
      ExecExtends(Apply(s, more[0]), more[1..], id);
    }
  }

  /** Once terminal, always the same row, finish and claims; the log is empty or the winner's report. */
  lemma {:induction false} TerminalIsFinal(m: Manifests, steps: seq<Step>, more: seq<Step>, id: RunId)
    ensures var s, s' := Exec(Init(m), steps), Exec(Init(m), steps + more);
            id in s.runs && s.runs[id].row.status.Terminal() ==>
              && id in s'.runs && s'.runs[id].row == s.runs[id].row && s'.runs[id].finishes == s.runs[id].finishes
              && |s.runs[id].finishes| == 1
              && (s'.runs[id].log == "" || s'.runs[id].log == s.runs[id].finishes[0].update.logs)
  {
    ReachableInv(m, steps);
    ReachableInv(m, steps + more);
    RunSplits(Apply, Init(m), steps, more);
    var s := Exec(Init(m), steps);
    if id in s.runs {
      ExecExtends(s, more, id);
      assert RecordOk(s.runs[id]) && RecordOk(Exec(s, more).runs[id]);
    }
  }

  /** A worker whose run somebody else has claimed since can never again change the run's row, its log or
      its history, by any of its steps and however late. */
  lemma {:induction false} SupersededWorkerIsPowerless(
      m: Manifests, steps: seq<Step>, more: seq<Step>, w: WorkerId, step: Step)
    requires ByWorker(step) && step.w == w
    ensures var s, s' := Exec(Init(m), steps), Exec(Init(m), steps + more);
            w in s.workers && s.workers[w].run in s.runs && Superseded(s.runs[s.workers[w].run], w) ==>
              w in s'.workers && Apply(s', step).runs == s'.runs
  {
    ReachableInv(m, steps);
    ReachableInv(m, steps + more);
    RunSplits(Apply, Init(m), steps, more);
    var s := Exec(Init(m), steps);
    if w in s.workers && Superseded(s.runs[s.workers[w].run], w) {
      var id := s.workers[w].run;
      ExecExtends(s, more, id);
      var s' := Exec(s, more);
      ClaimsStayDistinct(s.runs[id], s'.runs[id], w);
      RunsStayWithWorkers(m, steps + more, id, w);
      PowerlessNow(s', step, id);
    }
  }

  lemma {:induction false} PowerlessNow(s: System, step: Step, id: RunId)
    requires Inv(s) && ByWorker(step) && step.w in s.workers && s.workers[step.w].run == id && id in s.runs
    requires Superseded(s.runs[id], step.w)
    ensures Apply(s, step).runs == s.runs
  {
    hide RecordOk, Agree, WorkerStep, Pinned;
    RecordKeepsOut(s.runs[id], step.w, s.workers[step.w], s.now, step);
    assert s.runs[id := s.runs[id]] == s.runs;
  }

  /** A superseded worker does not hold the row, so none of its guards is met. */
  lemma {:induction false} RecordKeepsOut(rec: RunRecord, w: WorkerId, worker: Worker, now: int, step: Step)
    requires RecordOk(rec) && Agree(rec, w, worker, now) && Superseded(rec, w)
    ensures WorkerStep(rec, w, worker, now, step).0 == rec
  {
  }

  ghost predicate Superseded(rec: RunRecord, w: WorkerId) {
    w in rec.claims && w != rec.claims[|rec.claims| - 1]
  }

  lemma {:induction false} ClaimsStayDistinct(rec: RunRecord, rec': RunRecord, w: WorkerId)
    requires RecordOk(rec') && rec.claims <= rec'.claims && Superseded(rec, w)
    ensures Superseded(rec', w)
  {
    var i :| 0 <= i < |rec.claims| && rec.claims[i] == w;
    assert rec'.claims[i] == w && i < |rec'.claims| - 1;
  }

  // ---------------------------------------------------------------- split finish refines atomic finish

  function ForgetPhase(phase: Phase): Phase {
    match phase
    case Finishing(update, at, _) => Finishing(update, at, None)
    case _ => phase
  }

  function ForgetWorker(worker: Worker): Worker {
    worker.(phase := ForgetPhase(worker.phase))
  }

  /** The system with every row a worker has read and computed from forgotten. */
  function Forget(s: System): System {
    s.(workers := map w | w in s.workers :: ForgetWorker(s.workers[w]))
  }

  /** The specification: finishing changes the row that is there at that moment, in one step. */
  function AtomicWorkerStep(rec: RunRecord, w: WorkerId, worker: Worker, now: int, step: Step): (RunRecord, Worker) {
    if step.ReadForFinish? && worker.phase.Executing? && step.update.status.Terminal()
    then (rec, worker.(phase := Finishing(step.update, step.at, None)))
    else if step.GuardedFinish? && worker.phase.Finishing?
    then FinishWith(rec, w, worker, AtomicallyFinished(rec.row, worker.phase.update, worker.phase.at))
    else WorkerStep(rec, w, worker, now, step)
  }

  function AtomicApply(s: System, step: Step): System {
    if !ByWorker(step) then Apply(s, step)
    else if step.w in s.workers && s.workers[step.w].run in s.runs then
      var worker := s.workers[step.w];
      var (rec, worker') := AtomicWorkerStep(s.runs[worker.run], step.w, worker, s.now, step);
      Put(s, worker.run, rec, step.w, worker')
    else s
  }

  function AtomicExec(s: System, steps: seq<Step>): System { Run(AtomicApply, s, steps) }

  lemma {:induction false} WorkerStepRefines(rec: RunRecord, w: WorkerId, worker: Worker, now: int, step: Step)
    requires ByWorker(step) && Agree(rec, w, worker, now)
    ensures var (rec', worker') := WorkerStep(rec, w, worker, now, step);
            AtomicWorkerStep(rec, w, ForgetWorker(worker), now, step) == (rec', ForgetWorker(worker'))
  {
  }

  ghost predicate ForgetShape(s: System)
    ensures ForgetShape(s)
  {
    var f := Forget(s);
    && f.runs == s.runs && f.now == s.now && f.workers.Keys == s.workers.Keys
    && (forall w :: w in s.workers ==>
          f.workers[w] == ForgetWorker(s.workers[w]) && f.workers[w].run == s.workers[w].run)
  }

  lemma {:induction false} SharedStepRefines(s: System, step: Step)
    requires !ByWorker(step)
    ensures Apply(Forget(s), step) == Forget(Apply(s, step))
  {
    if step.Claim? && Apply(s, step) != s {
      ForgetPut(s, step.id, ClaimRecord(s.runs[step.id], step.w, s.now, step.millis),
                step.w, Worker(step.id, step.millis, s.now + LEASE_SECONDS, Executing));
    }
  }

  lemma {:induction false} ForgetPut(s: System, id: RunId, rec: RunRecord, w: WorkerId, worker: Worker)
    ensures Forget(Put(s, id, rec, w, worker)) == Put(Forget(s), id, rec, w, ForgetWorker(worker))
  {
    assert Forget(Put(s, id, rec, w, worker)).workers == Put(Forget(s), id, rec, w, ForgetWorker(worker)).workers;
  }

  lemma {:induction false} StepRefines(s: System, step: Step)
    requires Inv(s)
    ensures AtomicApply(Forget(s), step) == Forget(Apply(s, step))
  {
    hide Agree, RecordOk, WorkerStep, AtomicWorkerStep, Put, Forget, ForgetWorker;
    assert ForgetShape(s);
    if ByWorker(step) {
      if step.w in s.workers {
        var worker := s.workers[step.w];
        var (rec, worker') := WorkerStep(s.runs[worker.run], step.w, worker, s.now, step);
        WorkerStepRefines(s.runs[worker.run], step.w, worker, s.now, step);
        ForgetPut(s, worker.run, rec, step.w, worker');
      }
    } else {
      SharedStepRefines(s, step);
    }
  }

  lemma {:induction false} ExecRefines(s: System, steps: seq<Step>)
    requires Inv(s)
    ensures AtomicExec(Forget(s), steps) == Forget(Exec(s, steps))
    decreases |steps|
  {
    if steps != [] {
      StepRefines(s, steps[0]);
      StepKeepsInv(s, steps[0]);
      ExecRefines(Apply(s, steps[0]), steps[1..]);
    }
  }

  /** In every interleaving the split read-compute-update leaves the rows, logs and histories that an
      atomic finish would have left. */
  lemma {:induction false} SplitFinishIsAtomic(m: Manifests, steps: seq<Step>)
    ensures AtomicExec(Init(m), steps).runs == Exec(Init(m), steps).runs
    ensures AtomicExec(Init(m), steps) == Forget(Exec(Init(m), steps))
  {
    assert Forget(Init(m)) == Init(m);
    ExecRefines(Init(m), steps);
  }

  // ---------------------------------------------------------------- what a new run is created from

  lemma {:induction false} SpacesAreSpaces()
    ensures IsSpace(' ') && IsSpace('\t') && IsSpace('\n') && IsSpace('\r')
    ensures forall c: char :: 0x21 <= c as int <= 0x7E ==> !IsSpace(c)
  {
  }

  /** Without a release only CI runs are planned, on the requested commit, or on the head when nothing but
      whitespace was requested; without either there is no run. */
  lemma {:induction false} UnboundPlan(m: Manifests, request: RunRequest, headCommit: string)
    ensures var plan := PlanRun(m, request, headCommit, None);
            && (request.workflow != "ci" ==> plan == None)
            && (request.workflow == "ci" && (exists i :: 0 <= i < |request.commitId| && !IsSpace(request.commitId[i]))
                ==> plan == Some(Provenance(request.repo, request.commitId, request.branch, "manual", request.actor,
                                            "ci", "", "")))
            && (request.workflow == "ci" && (forall i :: 0 <= i < |request.commitId| ==> IsSpace(request.commitId[i]))
                ==> plan == if headCommit == "" then None
                            else Some(Provenance(request.repo, headCommit, request.branch, "manual", request.actor,
                                                 "ci", "", "")))
  {
  }

  /** With a release a run is planned exactly when the release verifies, is ready and has a commit, the workflow is
      known, and a commit that was asked for is the release's own. */
  lemma {:induction false} BoundPlan(m: Manifests, request: RunRequest, headCommit: string, b: Binding)
    requires b.repo == request.repo && b.version != ""
    ensures var r, plan := b.release, PlanRun(m, request, headCommit, Some(b));
            plan == if && m.digest(r.manifest) == r.manifestSha256 && m.ready(r.manifest) && r.commitId != ""
                       && (request.workflow == "ci" || request.workflow == "evaluate"
                           || request.workflow == "inference" || request.workflow == "benchmark")
                       && (request.commitId == r.commitId
                           || forall i :: 0 <= i < |request.commitId| ==> IsSpace(request.commitId[i]))
                    then Some(Provenance(request.repo, r.commitId, request.branch, "release", request.actor,
                                         request.workflow, b.version, r.manifestSha256))
                    else None
  {
  }

  /** A push starts one queued CI run on `main` under a fresh id, and a taken id changes nothing. */
  lemma {:induction false} PushRunColumns(
      s: System, id: RunId, repo: string, sha: string, provider: string, millis: int)
    ensures var s' := Apply(s, CreatePushRun(id, repo, sha, provider, millis));
            if id in s.runs then s' == s
            else s' == s.(runs := s.runs[id := RunRecord(
                   ActionRun(Provenance(repo, sha, "main", "push", "forgejo", "ci", "", ""), provider, "", Queued, "",
                             millis, 0, 0, 0, 0, [ActionJob(id + "-job-1", "clotho-ci", Queued, None)], None, None),
                   "", [], [])])
  {
    assert "clotho-" + "ci" == "clotho-ci";
  }

  /** A release is stored once, with the digest of the manifest it was made from; it verifies exactly when the
      manifest read back has that digest. */
  lemma {:induction false} ReleaseColumns(s: System, repo: string, version: string, commitId: string, manifest: string)
    ensures var s' := Apply(s, CreateRelease(repo, version, commitId, manifest));
            var m := s.manifests;
            if (repo, version) in s.releases then s' == s
            else && s' == s.(releases := s.releases[(repo, version) :=
                               Release(commitId, m.stored(manifest), m.digest(manifest))])
                 && (Verified(m, s'.releases[(repo, version)]) <==> m.digest(m.stored(manifest)) == m.digest(manifest))
  {
  }

  // ---------------------------------------------------------------- provenance

  lemma {:induction false} ExecKeepsReleases(s: System, steps: seq<Step>)
    ensures Exec(s, steps).manifests == s.manifests
    ensures forall k :: k in s.releases ==> k in Exec(s, steps).releases && Exec(s, steps).releases[k] == s.releases[k]
    decreases |steps|
  {
    hide Apply;
    if steps != [] {
      StepKeepsReleases(s, steps[0]);
      ExecKeepsReleases(Apply(s, steps[0]), steps[1..]);
    }
  }

  /** A release-pinned run carries, for ever, the commit and digest of one stored, verified, ready release
      of its own repository and version; and no step changes any provenance column. */
  lemma {:induction false} PinnedRunKeepsItsRelease(m: Manifests, steps: seq<Step>, more: seq<Step>, id: RunId)
    ensures var s, s' := Exec(Init(m), steps), Exec(Init(m), steps + more);
            id in s.runs ==>
              && id in s'.runs && s'.runs[id].row.provenance == s.runs[id].row.provenance
              && Pinned(m, s.releases, s.runs[id].row.provenance)
              && Pinned(m, s'.releases, s.runs[id].row.provenance)
    ensures var s, s' := Exec(Init(m), steps), Exec(Init(m), steps + more);
            forall k :: k in s.releases ==> k in s'.releases && s'.releases[k] == s.releases[k]
  {
    ReachableInv(m, steps);
    ReachableInv(m, steps + more);
    RunSplits(Apply, Init(m), steps, more);
    ExecKeepsReleases(Init(m), steps);
    ExecKeepsReleases(Exec(Init(m), steps), more);
    if id in Exec(Init(m), steps).runs {
      ExecExtends(Exec(Init(m), steps), more, id);
    }
    hide Exec, RecordOk, Agree, Verified;
  }

  // ---------------------------------------------------------------- no run is lost

  /** A non-terminal run is selected by the recovery scan now, or its last claimer holds it under a lease
      that ends within thirty seconds; unless renewed, the scan selects it as soon as that has passed. */
  lemma {:induction false} EligibleOrLeased(m: Manifests, steps: seq<Step>, id: RunId, seconds: nat)
    ensures var s := Exec(Init(m), steps);
            id in s.runs && !s.runs[id].row.status.Terminal() ==>
              || Claimable(s.runs[id].row, s.now)
              || (var row, claims := s.runs[id].row, s.runs[id].claims;
                  && claims != [] && HeldBy(row, claims[|claims| - 1])
                  && row.leaseExpiresAt.Some? && s.now <= row.leaseExpiresAt.value <= s.now + LEASE_SECONDS
                  && (Claimable(row, s.now + seconds) <==> row.leaseExpiresAt.value < s.now + seconds))
  {
    ReachableInv(m, steps);
    var s := Exec(Init(m), steps);
    if id in s.runs && s.runs[id].row.status.Running? {
      assert RecordOk(s.runs[id]);
      var w := s.runs[id].claims[|s.runs[id].claims| - 1];
      RunsStayWithWorkers(m, steps, id, w);
      assert Agree(s.runs[id], w, s.workers[w], s.now);
    }
  }

  /** The holder of a run reads, finishes and logs without interference. */
  lemma {:induction false} HolderFinishes(
      s: System, id: RunId, rec: RunRecord, w: WorkerId, worker: Worker, update: FinishedRun, at: int)
    requires HeldBy(rec.row, w) && rec.finishes == [] && update.status.Terminal()
    requires worker.run == id && worker.phase.Executing?
    ensures var s1 := Apply(Put(s, id, rec, w, worker), ReadForFinish(w, update, at));
            var s3 := Apply(Apply(s1, GuardedFinish(w)), WriteLog(w));
            id in s3.runs && s3.runs[id].finishes == [Finish(w, update, at)] && s3.runs[id].log == update.logs
  {
    var computed := Finished(rec.row, update, at);
    var w1 := worker.(phase := Finishing(update, at, Some(computed)));
    hide Apply, Put;
    ApplyOnPut(s, id, rec, w, worker, ReadForFinish(w, update, at));
    var r2 := rec.(row := Overwritten(rec.row, computed), finishes := [Finish(w, update, at)]);
    var w2 := worker.(phase := Logging(update.logs));
    assert rec.finishes + [Finish(w, update, at)] == [Finish(w, update, at)];
    ApplyOnPut(s, id, rec, w, w1, GuardedFinish(w));
    ApplyOnPut(s, id, r2, w, w2, WriteLog(w));
    PutFinds(s, id, r2.(log := update.logs), w, w2.(phase := Done));
  }

  lemma {:induction false} PutFinds(s: System, id: RunId, rec: RunRecord, w: WorkerId, worker: Worker)
    ensures id in Put(s, id, rec, w, worker).runs && Put(s, id, rec, w, worker).runs[id] == rec
  {
  }

  /** The five steps of one undisturbed attempt by `w`. */
  function Attempt(id: RunId, w: WorkerId, seconds: nat, update: FinishedRun, at: int): seq<Step> {
    [Tick(seconds)]
    + ([Claim(w, id, at)] + ([ReadForFinish(w, update, at)] + ([GuardedFinish(w)] + ([WriteLog(w)] + []))))
  }

  lemma {:induction false} ExecFive(s: System, a: Step, b: Step, c: Step, d: Step, e: Step)
    ensures Exec(s, [a] + ([b] + ([c] + ([d] + ([e] + [])))))
            == Apply(Apply(Apply(Apply(Apply(s, a), b), c), d), e)
  {
    RunCons(Apply, s, a, [b] + ([c] + ([d] + ([e] + []))));
    RunCons(Apply, Apply(s, a), b, [c] + ([d] + ([e] + [])));
    RunCons(Apply, Apply(Apply(s, a), b), c, [d] + ([e] + []));
    RunCons(Apply, Apply(Apply(Apply(s, a), b), c), d, [e] + []);
    RunCons(Apply, Apply(Apply(Apply(Apply(s, a), b), c), d), e, []);
    assert Exec(Apply(Apply(Apply(Apply(Apply(s, a), b), c), d), e), [])
        == Apply(Apply(Apply(Apply(Apply(s, a), b), c), d), e);
    hide *;
  }

  lemma {:induction false} ClaimPuts(s: System, id: RunId, w: WorkerId, seconds: nat, at: int)
    requires id in s.runs && w !in s.workers && Claimable(s.runs[id].row, s.now + seconds)
    ensures var s1 := s.(now := s.now + seconds);
            Apply(Apply(s, Tick(seconds)), Claim(w, id, at))
            == Put(s1, id, ClaimRecord(s.runs[id], w, s1.now, at),
                   w, Worker(id, at, s1.now + LEASE_SECONDS, Executing))
  {
  }

  lemma {:induction false} AttemptFinishes(
      s: System, id: RunId, w: WorkerId, seconds: nat, update: FinishedRun, at: int)
    requires id in s.runs && w !in s.workers && update.status.Terminal()
    requires RecordOk(s.runs[id]) && Claimable(s.runs[id].row, s.now + seconds)
    ensures var s' := Exec(s, Attempt(id, w, seconds, update, at));
            id in s'.runs && s'.runs[id].finishes == [Finish(w, update, at)] && s'.runs[id].log == update.logs
  {
    hide Exec, Apply, Put;
    ExecFive(s, Tick(seconds), Claim(w, id, at), ReadForFinish(w, update, at), GuardedFinish(w), WriteLog(w));
    ClaimPuts(s, id, w, seconds, at);
    HolderFinishes(s.(now := s.now + seconds), id, ClaimRecord(s.runs[id], w, s.now + seconds, at),
                   w, Worker(id, at, s.now + seconds + LEASE_SECONDS, Executing), update, at);
  }

  lemma {:induction false} ApplyOnPut(s: System, id: RunId, rec: RunRecord, w: WorkerId, worker: Worker, step: Step)
    requires ByWorker(step) && step.w == w && worker.run == id
    ensures var (rec', worker') := WorkerStep(rec, w, worker, s.now, step);
            Apply(Put(s, id, rec, w, worker), step) == Put(s, id, rec', w, worker')
  {
    var (rec', worker') := WorkerStep(rec, w, worker, s.now, step);
    assert s.runs[id := rec][id := rec'] == s.runs[id := rec'];
    assert s.workers[w := worker][w := worker'] == s.workers[w := worker'];
  }

  /** Whatever has crashed, a fresh worker can still bring any run of any reachable state to an end,
      once the last lease has lapsed. */
  lemma {:induction false} NeverStuck(
      m: Manifests, steps: seq<Step>, id: RunId, w: WorkerId, seconds: nat, update: FinishedRun, at: int)
    requires var s := Exec(Init(m), steps);
             && id in s.runs && !s.runs[id].row.status.Terminal() && w !in s.workers
             && (s.runs[id].row.leaseExpiresAt.Some? ==> s.runs[id].row.leaseExpiresAt.value < s.now + seconds)
    requires update.status.Terminal()
    ensures var s' := Exec(Init(m), steps + Attempt(id, w, seconds, update, at));
            id in s'.runs && s'.runs[id].finishes == [Finish(w, update, at)] && s'.runs[id].log == update.logs
  {
    ReachableInv(m, steps);
    RunSplits(Apply, Init(m), steps, Attempt(id, w, seconds, update, at));
    assert RecordOk(Exec(Init(m), steps).runs[id]);
    AttemptFinishes(Exec(Init(m), steps), id, w, seconds, update, at);
  }
}
