/** What every behaviour of the Hub import protocol guarantees, and the one promise it keeps only for
    requests the recovery scan can decode. */
module HubTheorems {
  import opened Prelude
  import opened HubJobs
  import opened HubProtocol
  import opened Behaviours

  lemma {:induction false} ReachableInv(steps: seq<Step>)
    ensures Inv(Exec(INITIAL, steps))
  {
    ExecKeepsInv(INITIAL, steps);
  }

  // ---------------------------------------------------------------- progress is the holder's own

  /** While a worker holds a job, the row counts exactly the files this worker has completed: how many,
      their total size, and how many reached the large-file threshold.  Nothing is left over from earlier
      holders, whatever they did. */
  lemma {:induction false} ProgressIsTheHoldersOwn(steps: seq<Step>, w: WorkerId)
    ensures var s := Exec(INITIAL, steps);
            w in s.workers && s.workers[w].phase.Importing? && s.workers[w].job in s.jobs
            && HeldBy(s.jobs[s.workers[w].job].row, w) ==>
              var row, p := s.jobs[s.workers[w].job].row, s.workers[w].phase;
              && p.done <= |p.plan.files|
              && row.filesTotal == |p.plan.files| && row.logicalBytes == TotalSize(p.plan.files)
              && row.filesImported == p.done
              && row.bytesImported == TotalSize(p.plan.files[..p.done])
              && row.arachneFiles == CountLarge(p.plan.files[..p.done], p.plan.threshold)
              && row.securityCounts == SecurityCounts(p.plan.files)
  {
    ReachableInv(steps);
  }

  /** Through any crashes and takeovers, no counter passes its total. */
  lemma {:induction false} CountersNeverPassTotals(steps: seq<Step>, id: JobId)
    ensures var s := Exec(INITIAL, steps);
            id in s.jobs ==>
              var row := s.jobs[id].row;
              && row.filesImported <= row.filesTotal && row.bytesImported <= row.logicalBytes
              && row.arachneFiles <= row.filesImported
              && (row.status.Succeeded? ==>
                    row.filesImported == row.filesTotal && row.bytesImported == row.logicalBytes)
  {
    ReachableInv(steps);
    if id in Exec(INITIAL, steps).jobs {
      assert JobOk(Exec(INITIAL, steps).jobs[id]);
    }
  }

  /** A succeeded job's totals, counters, security counts and commit ids all come from one import by one
      worker, the last to claim the job, and the lease is gone. */
  lemma {:induction false} SuccessIsOneImport(steps: seq<Step>, id: JobId)
    ensures var s := Exec(INITIAL, steps);
            id in s.jobs && s.jobs[id].row.status.Succeeded? ==>
              var rec := s.jobs[id];
              && rec.ends != [] && rec.claims != []
              && var end := rec.ends[|rec.ends| - 1];
                 && end.ByImport? && end.w == rec.claims[|rec.claims| - 1]
                 && FullyImported(rec.row, end.plan)
                 && rec.row.commitId == end.commit && rec.row.operationId == end.op
                 && rec.row.lockedBy.None?
    ensures var s := Exec(INITIAL, steps);
            id in s.jobs && s.jobs[id].row.status.Succeeded? ==>
              var row, plan := s.jobs[id].row, s.jobs[id].ends[|s.jobs[id].ends| - 1].plan;
              && row.filesTotal == |plan.files| && row.filesImported == |plan.files|
              && row.logicalBytes == TotalSize(plan.files) && row.bytesImported == TotalSize(plan.files)
              && row.arachneFiles
                 == |set i | 0 <= i < |plan.files| && plan.files[i].size >= plan.threshold && plan.files[i].size > 0|
              && (forall k :: k in row.securityCounts
                              <==> exists i :: 0 <= i < |plan.files| && plan.files[i].security == k)
              && (forall k :: k in row.securityCounts ==>
                    row.securityCounts[k] == multiset(Statuses(plan.files))[k])
  {
    ReachableInv(steps);
    if id in Exec(INITIAL, steps).jobs {
      var rec := Exec(INITIAL, steps).jobs[id];
      assert JobOk(rec);
      if rec.row.status.Succeeded? {
        var plan := rec.ends[|rec.ends| - 1].plan;
        hide CountLarge, SecurityCounts, TotalSize, Exec;
        CountLargeExactly(plan.files, plan.threshold);
        SecurityCountsExactly(plan.files);
      }
    }
  }

  // ---------------------------------------------------------------- leases, and what each update writes

  /** At any moment at most one worker of a job has been promised a lease that is still running. */
  lemma {:induction false} OneLeaseAtATime(steps: seq<Step>, v: WorkerId, w: WorkerId)
    ensures var s := Exec(INITIAL, steps);
            v in s.workers && w in s.workers && s.workers[v].job == s.workers[w].job
            && s.workers[v].grantedUntil >= s.now && s.workers[w].grantedUntil >= s.now
            ==> v == w
  {
    ReachableInv(steps);
  }

  /** A fresh worker's claim takes effect exactly on jobs that have not ended and on which every promise ever made
      has expired; it promises thirty seconds and restarts the progress of a job taken over. */
  lemma {:induction false} ClaimTakesEffectExactly(steps: seq<Step>, w: WorkerId, id: JobId)
    requires w !in Exec(INITIAL, steps).workers
    ensures var s := Exec(INITIAL, steps);
            var s' := Apply(s, Claim(w, id));
            && (w in s'.workers
                <==> && id in s.jobs && (s.jobs[id].row.status == Queued || s.jobs[id].row.status == Running)
                     && forall v :: v in s.workers && s.workers[v].job == id ==> s.workers[v].grantedUntil < s.now)
            && (w in s'.workers ==>
                  && s'.workers[w] == Worker(id, s.now + 30, Starting)
                  && s'.jobs == s.jobs[id := s'.jobs[id]]
                  && var j := s.jobs[id].row;
                     s'.jobs[id].row == HubJob(
                       j.decodes, Running, j.filesTotal, 0, j.logicalBytes, 0, 0, j.securityCounts, j.commitId,
                       j.operationId, "", if j.startedAt == None then Some(s.now) else j.startedAt, None,
                       Some(w), Some(s.now + 30)))
  {
    ReachableInv(steps);
    var s := Exec(INITIAL, steps);
    hide Exec, FullyImported, TotalSize, CountLarge, SecurityCounts;
    if id in s.jobs {
      var rec := s.jobs[id];
      assert JobOk(rec);
      forall v | v in s.workers && s.workers[v].job == id && Claimable(rec.row, s.now)
        ensures s.workers[v].grantedUntil < s.now
      {
        assert Agree(rec, v, s.workers[v], s.now);
      }
      if rec.row.status.Running? && !Claimable(rec.row, s.now) {
        var last := rec.claims[|rec.claims| - 1];
        ClaimersStay(steps, id, last);
        assert Agree(rec, last, s.workers[last], s.now);
      }
    }
  }

  ghost predicate ClaimersKnow(s: System) {
    forall id, w :: id in s.jobs && w in s.jobs[id].claims ==> w in s.workers && s.workers[w].job == id
  }

  lemma {:induction false} ClaimersKnowStep(s: System, step: Step)
    requires ClaimersKnow(s) && forall w :: w in s.workers ==> s.workers[w].job in s.jobs
    ensures ClaimersKnow(Apply(s, step))
  {
    hide WorkerStep, Claimed, Claimable, ScanRecord, DoomRecord, NewJob;
    if ByWorker(step) && step.w in s.workers {
      WorkerStepKeepsClaims(s.jobs[s.workers[step.w].job], step.w, s.workers[step.w], s.now, step);
    }
    SharedKeepClaims(s);
  }

  lemma {:induction false} SharedKeepClaims(s: System)
    ensures forall id :: id in s.jobs ==>
              ScanRecord(s.jobs[id], s.now).claims == s.jobs[id].claims == DoomRecord(s.jobs[id], s.now).claims
  {
  }

  lemma {:induction false} ClaimersKnowExec(s: System, steps: seq<Step>)
    requires Inv(s) && ClaimersKnow(s)
    ensures ClaimersKnow(Exec(s, steps))
    decreases |steps|
  {
    hide Apply, ClaimersKnow;
    if steps != [] {
      StepKeepsInv(s, steps[0]);
      ClaimersKnowStep(s, steps[0]);
      ClaimersKnowExec(Apply(s, steps[0]), steps[1..]);
    }
  }

  lemma {:induction false} ClaimersStay(steps: seq<Step>, id: JobId, w: WorkerId)
    requires id in Exec(INITIAL, steps).jobs && w in Exec(INITIAL, steps).jobs[id].claims
    ensures w in Exec(INITIAL, steps).workers && Exec(INITIAL, steps).workers[w].job == id
  {
    ReachableInv([]);
    ClaimersKnowExec(INITIAL, steps);
  }

  /** A heartbeat of the holder of a running job promises thirty seconds from now and changes nothing else. */
  lemma {:induction false} RenewColumns(rec: JobRecord, w: WorkerId, worker: Worker, now: int)
    requires !worker.phase.Crashed?
    ensures WorkerStep(rec, w, worker, now, Renew(w))
         == if rec.row.lockedBy == Some(w) && rec.row.status == Running
            then (rec.(row := rec.row.(leaseExpiresAt := Some(now + 30))), worker.(grantedUntil := now + 30))
            else (rec, worker)
  {
  }

  /** The success update of the holder that has submitted its commit. */
  lemma {:induction false} SuccessColumns(
      rec: JobRecord, w: WorkerId, worker: Worker, now: int, commit: string, op: string)
    requires worker.phase.Submitting? && rec.row.lockedBy == Some(w)
    ensures var j, files := rec.row, worker.phase.plan.files;
            WorkerStep(rec, w, worker, now, Finalize(w, true, commit, op)).0.row
            == HubJob(j.decodes, Succeeded, j.filesTotal, |files|, j.logicalBytes, TotalSize(files),
                      worker.phase.arachne, SecurityCounts(files), commit, op, "", j.startedAt, Some(now), None, None)
  {
  }

  /** The failure update of the holder: status, error and completion are set, the lease is dropped, and what was
      counted stays. */
  lemma {:induction false} FailureColumns(rec: JobRecord, w: WorkerId, worker: Worker, now: int)
    requires worker.phase.Failing?
    ensures WorkerStep(rec, w, worker, now, ReportFailure(w)).0.row
         == if rec.row.lockedBy == Some(w)
            then rec.row.(status := Failed, error := worker.phase.error, completedAt := Some(now), lockedBy := None,
                          leaseExpiresAt := None)
            else rec.row
  {
  }

  /** The scan's own failure update: no lease is checked and none is dropped. */
  lemma {:induction false} ScanFailureColumns(rec: JobRecord, now: int)
    ensures DoomRecord(rec, now).row
         == if rec.doomed && (rec.row.status == Queued || rec.row.status == Running)
            then rec.row.(status := Failed, error := "cannot recover import request", completedAt := Some(now))
            else rec.row
    ensures ScanRecord(rec, now).row == rec.row
  {
  }

  /** The commit ids are recorded by the holder once all files are in. */
  lemma {:induction false} CommitColumns(
      rec: JobRecord, w: WorkerId, worker: Worker, now: int, commit: string, op: string)
    requires worker.phase.Importing? && worker.phase.done == |worker.phase.plan.files|
    ensures WorkerStep(rec, w, worker, now, RecordCommit(w, true, commit, op)).0.row
         == if rec.row.lockedBy == Some(w) then rec.row.(commitId := commit, operationId := op) else rec.row
  {
  }

  // ---------------------------------------------------------------- a moved lease stays moved

  lemma {:induction false} WorkerStepKeepsClaims(rec: JobRecord, w: WorkerId, worker: Worker, now: int, step: Step)
    ensures var (rec', worker') := WorkerStep(rec, w, worker, now, step);
            rec'.claims == rec.claims && worker'.job == worker.job && rec'.row.decodes == rec.row.decodes
            && (!HeldBy(rec.row, w) ==> rec' == rec)
  {
    hide TotalSize, CountLarge, SecurityCounts, CheckImport;
  }

  ghost predicate Extends(rec: JobRecord, rec': JobRecord) {
    && rec.claims <= rec'.claims && rec.row.decodes == rec'.row.decodes
    && (rec.row.decodes && rec.row.status.Terminal() ==> rec' == rec)
  }

  lemma {:induction false} StepExtends(s: System, step: Step, id: JobId)
    requires Inv(s) && id in s.jobs
    ensures id in Apply(s, step).jobs && Extends(s.jobs[id], Apply(s, step).jobs[id])
    ensures forall w :: w in s.workers ==>
              w in Apply(s, step).workers && Apply(s, step).workers[w].job == s.workers[w].job
  {
    hide Apply, WorkerStep, Agree, JobOk, ClaimRecord, ScanRecord, DoomRecord, Extends;
    var rec := s.jobs[id];
    StepOnJob(s, step, id);
    SharedStepsExtend(rec, s.now);
    if step.Claim? && Claimable(rec.row, s.now) {
      ClaimExtends(rec, step.w, s.now);
    }
    if ByWorker(step) && step.w in s.workers && s.workers[step.w].job == id {
      OwnStepExtends(rec, step.w, s.workers[step.w], s.now, step);
    }
    forall w | w in s.workers
      ensures w in Apply(s, step).workers && Apply(s, step).workers[w].job == s.workers[w].job
    {
      WorkersStay(s, step, w);
    }
  }

  lemma {:induction false} SharedStepsExtend(rec: JobRecord, now: int)
    requires JobOk(rec)
    ensures Extends(rec, rec) && Extends(rec, ScanRecord(rec, now)) && Extends(rec, DoomRecord(rec, now))
  {
  }

  lemma {:induction false} ClaimExtends(rec: JobRecord, w: WorkerId, now: int)
    requires Claimable(rec.row, now)
    ensures Extends(rec, ClaimRecord(rec, w, now))
  {
  }

  lemma {:induction false} OwnStepExtends(rec: JobRecord, w: WorkerId, worker: Worker, now: int, step: Step)
    requires JobOk(rec)
    ensures Extends(rec, WorkerStep(rec, w, worker, now, step).0)
  {
    hide WorkerStep;
    WorkerStepKeepsClaims(rec, w, worker, now, step);
  }

  lemma {:induction false} ExecExtends(s: System, more: seq<Step>, id: JobId)
    requires Inv(s) && id in s.jobs
    ensures id in Exec(s, more).jobs && Extends(s.jobs[id], Exec(s, more).jobs[id])
    ensures forall w :: w in s.workers ==>
              w in Exec(s, more).workers && Exec(s, more).workers[w].job == s.workers[w].job
    decreases |more|
  {
    hide Apply, Inv;
    if more != [] {
      StepKeepsInv(s, more[0]);
      StepExtends(s, more[0], id);
      ExecExtends(Apply(s, more[0]), more[1..], id);
    }
  }

  /** A worker whose job somebody else has claimed since can change no column again, by progress, commit,
      success, failure or heartbeat, however late its step comes. */
  lemma {:induction false} SupersededWorkerIsPowerless(steps: seq<Step>, more: seq<Step>, w: WorkerId, step: Step)
    requires ByWorker(step) && step.w == w
    ensures var s, s' := Exec(INITIAL, steps), Exec(INITIAL, steps + more);
            w in s.workers && s.workers[w].job in s.jobs && Superseded(s.jobs[s.workers[w].job], w) ==>
              w in s'.workers && Apply(s', step).jobs == s'.jobs
  {
    ReachableInv(steps);
    ReachableInv(steps + more);
    RunSplits(Apply, INITIAL, steps, more);
    var s := Exec(INITIAL, steps);
    if w in s.workers && s.workers[w].job in s.jobs && Superseded(s.jobs[s.workers[w].job], w) {
      var id := s.workers[w].job;
      ExecExtends(s, more, id);
      var s' := Exec(s, more);
      StillSuperseded(s.jobs[id], s'.jobs[id], w);
      WorkerStepKeepsClaims(s'.jobs[id], w, s'.workers[w], s'.now, step);
      assert s'.jobs[id := s'.jobs[id]] == s'.jobs;
    }
  }

  ghost predicate Superseded(rec: JobRecord, w: WorkerId) {
    w in rec.claims && w != rec.claims[|rec.claims| - 1]
  }

  lemma {:induction false} StillSuperseded(rec: JobRecord, rec': JobRecord, w: WorkerId)
    requires JobOk(rec') && rec.claims <= rec'.claims && Superseded(rec, w)
    ensures Superseded(rec', w) && !HeldBy(rec'.row, w)
  {
    var i :| 0 <= i < |rec.claims| && rec.claims[i] == w;
    assert rec'.claims[i] == w && i < |rec'.claims| - 1;
  }

  // ---------------------------------------------------------------- when terminal is final

  ghost predicate TerminalStays(steps: seq<Step>, more: seq<Step>, id: JobId) {
    var s, s' := Exec(INITIAL, steps), Exec(INITIAL, steps + more);
    id in s.jobs && s.jobs[id].row.status.Terminal() ==> id in s'.jobs && s'.jobs[id].row == s.jobs[id].row
  }

  /** For a job whose request decodes, succeeded and failed are never left and no column changes again. */
  lemma {:induction false} TerminalIsFinal(steps: seq<Step>, more: seq<Step>, id: JobId)
    requires id in Exec(INITIAL, steps).jobs && Exec(INITIAL, steps).jobs[id].row.decodes
    ensures TerminalStays(steps, more, id)
  {
    ReachableInv(steps);
    RunSplits(Apply, INITIAL, steps, more);
    ExecExtends(Exec(INITIAL, steps), more, id);
  }

  /** The scan's own failure update checks no lease and releases none, so for a request that does not
      decode the worker still holding the row goes on to report success: failed becomes succeeded. */
  lemma {:induction false} FailedThenSucceeded(id: JobId) returns (steps: seq<Step>, more: seq<Step>)
    ensures var s, s' := Exec(INITIAL, steps), Exec(INITIAL, steps + more);
            && id in s.jobs && !s.jobs[id].row.decodes && s.jobs[id].row.status.Failed?
            && id in s'.jobs && s'.jobs[id].row.status.Succeeded?
  {
    steps := DoomingSteps(id);
    var files := [HubFile("f", 1, "safe")];
    var limits := Limits(1, 1, false);
    more := [Preflight("w", files, limits, 1)] + ([ImportFile("w", true)]
            + ([RecordCommit("w", true, "c", "o")] + ([Finalize("w", true, "c", "o")] + [])));
    DoomedPrefix(id);
    RunSplits(Apply, INITIAL, steps, more);
    LateSuccess(id, files, limits, Doomed());
  }

  /** Claimed, lapsed, found undecodable and failed, with the claimer still at work. */
  function DoomingSteps(id: JobId): seq<Step> {
    [Create(id, false)]
    + ([Claim("w", id)] + ([Tick(31)] + ([ScanUndecodable(id)] + ([FailUndecodable(id)] + []))))
  }

  function ClaimedRow(): JobRecord {
    ClaimRecord(JobRecord(NewJob(false), false, [], []), "w", 0)
  }

  function Doomed(): JobRecord {
    DoomRecord(ScanRecord(ClaimedRow(), 31), 31)
  }

  /** A system of one job and one worker. */
  function Single(id: JobId, rec: JobRecord, now: int, worker: Worker): System {
    System(map[id := rec], now, map["w" := worker])
  }

  lemma {:induction false} DoomedPrefix(id: JobId)
    ensures Exec(INITIAL, DoomingSteps(id))
            == Single(id, Doomed(), 31, Worker(id, 30, Starting))
  {
    var worker := Worker(id, 30, Starting);
    var s1 := System(map[id := JobRecord(NewJob(false), false, [], [])], 0, map[]);
    RunCons(Apply, INITIAL, Create(id, false),
            [Claim("w", id)] + ([Tick(31)] + ([ScanUndecodable(id)] + ([FailUndecodable(id)] + []))));
    RunCons(Apply, s1, Claim("w", id), [Tick(31)] + ([ScanUndecodable(id)] + ([FailUndecodable(id)] + [])));
    assert Apply(s1, Claim("w", id)) == Single(id, ClaimedRow(), 0, worker);
    RunCons(Apply, Single(id, ClaimedRow(), 0, worker), Tick(31), [ScanUndecodable(id)] + ([FailUndecodable(id)] + []));
    RunCons(Apply, Single(id, ClaimedRow(), 31, worker), ScanUndecodable(id), [FailUndecodable(id)] + []);
    var scanned := ScanRecord(ClaimedRow(), 31);
    assert Apply(Single(id, ClaimedRow(), 31, worker), ScanUndecodable(id)) == Single(id, scanned, 31, worker);
    RunCons(Apply, Single(id, scanned, 31, worker), FailUndecodable(id), []);
    assert Apply(Single(id, scanned, 31, worker), FailUndecodable(id)) == Single(id, Doomed(), 31, worker);
  }

  lemma {:induction false} SingleStep(id: JobId, rec: JobRecord, now: int, worker: Worker, step: Step)
    requires ByWorker(step) && step.w == "w" && worker.job == id
    ensures var (rec', worker') := WorkerStep(rec, "w", worker, now, step);
            Apply(Single(id, rec, now, worker), step) == Single(id, rec', now, worker')
  {
  }

  lemma {:induction false} LateSuccess(id: JobId, files: seq<HubFile>, limits: Limits, rec: JobRecord)
    requires files == [HubFile("f", 1, "safe")] && limits == Limits(1, 1, false) && HeldBy(rec.row, "w")
    ensures var s' := Exec(Single(id, rec, 31, Worker(id, 30, Starting)),
                           [Preflight("w", files, limits, 1)] + ([ImportFile("w", true)]
                           + ([RecordCommit("w", true, "c", "o")] + ([Finalize("w", true, "c", "o")] + []))));
            id in s'.jobs && s'.jobs[id].row.status.Succeeded?
  {
    hide Exec, Apply, CheckImport, SecurityCounts, TotalSize, Single;
    var plan := Plan(files, 1);
    OneFileIsAccepted(files, limits);
    var w0 := Worker(id, 30, Starting);
    var r1, w1 := rec.(row := Preflighted(rec.row, files, 1)), w0.(phase := Importing(plan, 0, 0, 0));
    var r2, w2 := r1.(row := Progressed(r1.row, 1, 1)), w0.(phase := Importing(plan, 1, 1, 1));
    var r3, w3 := r2.(row := r2.row.(commitId := "c", operationId := "o")), w0.(phase := Submitting(plan, 1));
    ExecFour(Single(id, rec, 31, w0), Preflight("w", files, limits, 1), ImportFile("w", true),
             RecordCommit("w", true, "c", "o"), Finalize("w", true, "c", "o"));
    SingleStep(id, rec, 31, w0, Preflight("w", files, limits, 1));
    SingleStep(id, r1, 31, w1, ImportFile("w", true));
    SingleStep(id, r2, 31, w2, RecordCommit("w", true, "c", "o"));
    SingleStep(id, r3, 31, w3, Finalize("w", true, "c", "o"));
    var (r4, w4) := WorkerStep(r3, "w", w3, 31, Finalize("w", true, "c", "o"));
    SingleFinds(id, r4, 31, w4);
  }

  lemma {:induction false} OneFileIsAccepted(files: seq<HubFile>, limits: Limits)
    requires files == [HubFile("f", 1, "safe")] && limits == Limits(1, 1, false)
    ensures CheckImport(files, limits) == Ok(1)
  {
    assert files[..0] == [] && TotalSize(files[..0]) == 0 && CheckedSum(files[..0]) == Some(0);
  }

  lemma {:induction false} SingleFinds(id: JobId, rec: JobRecord, now: int, worker: Worker)
    ensures id in Single(id, rec, now, worker).jobs && Single(id, rec, now, worker).jobs[id] == rec
  {
  }

  lemma {:induction false} ExecFour(s: System, a: Step, b: Step, c: Step, d: Step)
    ensures Exec(s, [a] + ([b] + ([c] + ([d] + [])))) == Apply(Apply(Apply(Apply(s, a), b), c), d)
  {
    hide Apply;
    RunCons(Apply, s, a, [b] + ([c] + ([d] + [])));
    RunCons(Apply, Apply(s, a), b, [c] + ([d] + []));
    RunCons(Apply, Apply(Apply(s, a), b), c, [d] + []);
    RunCons(Apply, Apply(Apply(Apply(s, a), b), c), d, []);
  }

  /** Terminal statuses are final on every behaviour exactly for jobs whose stored request decodes. */
  lemma {:induction false} FinalExactlyWhenDecodable(id: JobId, decodes: bool)
    ensures (forall steps, more ::
               id in Exec(INITIAL, steps).jobs && Exec(INITIAL, steps).jobs[id].row.decodes == decodes
               ==> TerminalStays(steps, more, id))
            <==> decodes
  {
    if decodes {
      forall steps, more | id in Exec(INITIAL, steps).jobs && Exec(INITIAL, steps).jobs[id].row.decodes
        ensures TerminalStays(steps, more, id)
      {
        TerminalIsFinal(steps, more, id);
      }
    } else {
      var steps, more := FailedThenSucceeded(id);
      assert !TerminalStays(steps, more, id);
    }
  }
}
