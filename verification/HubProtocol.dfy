/** Any number of gateways working on Hub import jobs.  As in the Action-run protocol, a behaviour is a
    sequence of steps in any order and a step whose guard is false changes nothing. */
module HubProtocol {
  import opened Prelude
  import opened HubJobs
  import opened Behaviours

  datatype Plan = Plan(files: seq<HubFile>, threshold: nat)

  datatype Phase =
    | Starting
    | Importing(plan: Plan, done: nat, bytes: nat, arachne: nat)   // local variables of the file loop
    | Submitting(plan: Plan, arachne: nat)
    | Failing(error: string)
    | Done
    | Crashed

  datatype Worker = Worker(job: JobId, grantedUntil: int, phase: Phase)

  /** How a terminal status came to be written. */
  datatype End = ByImport(w: WorkerId, plan: Plan, commit: string, op: string)
               | ByError(w: WorkerId, error: string)
               | ByScan

  /** One job's row.  `doomed`: some scan has read the row, could not decode its request, and has not yet
      run its failure update.  `claims` and `ends` record the claims and terminal updates in order. */
  datatype JobRecord = JobRecord(row: HubJob, doomed: bool, claims: seq<WorkerId>, ends: seq<End>)

  datatype System = System(jobs: map<JobId, JobRecord>, now: int, workers: map<WorkerId, Worker>)

  datatype Step =
    | Create(id: JobId, decodes: bool)
    | Claim(w: WorkerId, id: JobId)
    | Tick(seconds: nat)
    | ScanUndecodable(id: JobId)
    | FailUndecodable(id: JobId)
    | Renew(w: WorkerId)
    | Crash(w: WorkerId)
    | Preflight(w: WorkerId, files: seq<HubFile>, limits: Limits, threshold: nat)
    | ImportFile(w: WorkerId, ok: bool)
    | RecordCommit(w: WorkerId, ok: bool, commit: string, op: string)
    | Finalize(w: WorkerId, ok: bool, commit: string, op: string)
    | ReportFailure(w: WorkerId)

  const INITIAL: System := System(map[], 0, map[])

  const LEASE_MOVED: string := "Hub import lease moved to another gateway"

  predicate ByWorker(step: Step) {
    !step.Create? && !step.Claim? && !step.Tick? && !step.ScanUndecodable? && !step.FailUndecodable?
  }

  /** A guarded update followed by the lease check: the worker goes on only if its row was there. */
  function Guarded(rec: JobRecord, w: WorkerId, worker: Worker, row: HubJob, next: Phase): (JobRecord, Worker) {
    if HeldBy(rec.row, w) then (rec.(row := row), worker.(phase := next))
    else (rec, worker.(phase := Failing(LEASE_MOVED)))
  }

  function DoPreflight(rec: JobRecord, w: WorkerId, worker: Worker, files: seq<HubFile>, limits: Limits, threshold: nat)
    : (JobRecord, Worker)
  {
    if !worker.phase.Starting? then (rec, worker)
    else match CheckImport(files, limits)
      case Err(e) => (rec, worker.(phase := Failing(e)))
      case Ok(total) =>
        Guarded(rec, w, worker, Preflighted(rec.row, files, total), Importing(Plan(files, threshold), 0, 0, 0))
  }

  function DoImportFile(rec: JobRecord, w: WorkerId, worker: Worker, ok: bool): (JobRecord, Worker) {
    if !worker.phase.Importing? || worker.phase.done >= |worker.phase.plan.files| then (rec, worker)
    else if !ok then (rec, worker.(phase := Failing("Hub file download")))
    else
      var p := worker.phase;
      var file := p.plan.files[p.done];
      var bytes := SaturatingAdd(p.bytes, file.size);
      var arachne := if Large(file, p.plan.threshold) then p.arachne + 1 else p.arachne;
      Guarded(rec, w, worker, Progressed(rec.row, bytes, arachne), Importing(p.plan, p.done + 1, bytes, arachne))
  }

  function DoRecordCommit(rec: JobRecord, w: WorkerId, worker: Worker, ok: bool, commit: string, op: string)
    : (JobRecord, Worker)
  {
    if !worker.phase.Importing? || worker.phase.done < |worker.phase.plan.files| then (rec, worker)
    else if !ok then (rec, worker.(phase := Failing("commit")))
    else Guarded(rec, w, worker, rec.row.(commitId := commit, operationId := op),
                 Submitting(worker.phase.plan, worker.phase.arachne))
  }

  function DoFinalize(rec: JobRecord, w: WorkerId, worker: Worker, now: int, ok: bool, commit: string, op: string)
    : (JobRecord, Worker)
  {
    if !worker.phase.Submitting? then (rec, worker)
    else if !ok then (rec, worker.(phase := Failing("submit")))
    else if !HeldBy(rec.row, w) then (rec, worker.(phase := Done))
    else
      var p := worker.phase;
      (rec.(row := Finalized(rec.row, p.plan.files, TotalSize(p.plan.files), p.arachne, commit, op, now),
            ends := rec.ends + [ByImport(w, p.plan, commit, op)]),
       worker.(phase := Done))
  }

  function DoReportFailure(rec: JobRecord, w: WorkerId, worker: Worker, now: int): (JobRecord, Worker) {
    if !worker.phase.Failing? then (rec, worker)
    else if !HeldBy(rec.row, w) then (rec, worker.(phase := Done))
    else (rec.(row := FailedJob(rec.row, worker.phase.error, now), ends := rec.ends + [ByError(w, worker.phase.error)]),
          worker.(phase := Done))
  }

  function DoRenew(rec: JobRecord, w: WorkerId, worker: Worker, now: int): (JobRecord, Worker) {
    if HeldBy(rec.row, w) && rec.row.status.Running?
    then (rec.(row := rec.row.(leaseExpiresAt := Some(now + LEASE_SECONDS))),
          worker.(grantedUntil := now + LEASE_SECONDS))
    else (rec, worker)
  }

  function WorkerStep(rec: JobRecord, w: WorkerId, worker: Worker, now: int, step: Step): (JobRecord, Worker) {
    if worker.phase.Crashed? then (rec, worker)
    else match step
      case Renew(_) => DoRenew(rec, w, worker, now)
      case Crash(_) => (rec, worker.(phase := Crashed))
      case Preflight(_, files, limits, threshold) => DoPreflight(rec, w, worker, files, limits, threshold)
      case ImportFile(_, ok) => DoImportFile(rec, w, worker, ok)
      case RecordCommit(_, ok, commit, op) => DoRecordCommit(rec, w, worker, ok, commit, op)
      case Finalize(_, ok, commit, op) => DoFinalize(rec, w, worker, now, ok, commit, op)
      case ReportFailure(_) => DoReportFailure(rec, w, worker, now)
      case _ => (rec, worker)
  }

  function ClaimRecord(rec: JobRecord, w: WorkerId, now: int): JobRecord {
    rec.(row := Claimed(rec.row, w, now), claims := rec.claims + [w])
  }

  function ScanRecord(rec: JobRecord, now: int): JobRecord {
    if !rec.row.decodes && Claimable(rec.row, now) then rec.(doomed := true) else rec
  }

  function DoomRecord(rec: JobRecord, now: int): JobRecord {
    if rec.doomed && !rec.row.status.Terminal()
    then rec.(row := FailedUndecodable(rec.row, now), ends := rec.ends + [ByScan])
    else rec
  }

  function Put(s: System, id: JobId, rec: JobRecord, w: WorkerId, worker: Worker): System {
    s.(jobs := s.jobs[id := rec], workers := s.workers[w := worker])
  }

  function Apply(s: System, step: Step): System {
    if ByWorker(step) then
      if step.w in s.workers && s.workers[step.w].job in s.jobs then
        var worker := s.workers[step.w];
        var (rec, worker') := WorkerStep(s.jobs[worker.job], step.w, worker, s.now, step);
        Put(s, worker.job, rec, step.w, worker')
      else s
    else match step
      case Create(id, decodes) =>
        if id in s.jobs then s else s.(jobs := s.jobs[id := JobRecord(NewJob(decodes), false, [], [])])
      case Claim(w, id) =>
        if w in s.workers || id !in s.jobs || !Claimable(s.jobs[id].row, s.now) then s
        else Put(s, id, ClaimRecord(s.jobs[id], w, s.now), w, Worker(id, s.now + LEASE_SECONDS, Starting))
      case Tick(seconds) => s.(now := s.now + seconds)
      case ScanUndecodable(id) =>
        if id in s.jobs then s.(jobs := s.jobs[id := ScanRecord(s.jobs[id], s.now)]) else s
      case FailUndecodable(id) =>
        if id in s.jobs then s.(jobs := s.jobs[id := DoomRecord(s.jobs[id], s.now)]) else s
      case _ => s
  }

  function Exec(s: System, steps: seq<Step>): System { Run(Apply, s, steps) }

  /** What a step does to one job: nothing, a claim, the scan's part, or a step of the worker that claimed it. */
  lemma {:induction false} StepOnJob(s: System, step: Step, id: JobId)
    requires id in s.jobs
    ensures id in Apply(s, step).jobs
    ensures var rec, rec' := s.jobs[id], Apply(s, step).jobs[id];
            || rec' == rec
            || (step.Claim? && step.id == id && step.w !in s.workers && Claimable(rec.row, s.now)
                && rec' == ClaimRecord(rec, step.w, s.now))
            || (step.ScanUndecodable? && rec' == ScanRecord(rec, s.now))
            || (step.FailUndecodable? && rec' == DoomRecord(rec, s.now))
            || (ByWorker(step) && step.w in s.workers && s.workers[step.w].job == id
                && rec' == WorkerStep(rec, step.w, s.workers[step.w], s.now, step).0)
  {
    hide WorkerStep, ClaimRecord, Claimable, ScanRecord, DoomRecord, NewJob;
  }

  /** A worker stays with the job it claimed. */
  lemma {:induction false} WorkersStay(s: System, step: Step, w: WorkerId)
    requires w in s.workers
    ensures w in Apply(s, step).workers && Apply(s, step).workers[w].job == s.workers[w].job
  {
    hide WorkerStep, ClaimRecord, Claimable, ScanRecord, DoomRecord, NewJob;
    if ByWorker(step) && step.w in s.workers && s.workers[step.w].job in s.jobs {
      StepsKeepNames(s.jobs[s.workers[step.w].job], step.w, s.workers[step.w], s.now, step);
    }
  }

  // ---------------------------------------------------------------- the inductive invariant

  /** Every column an import accounts for, as one complete import of `plan` leaves it. */
  ghost predicate FullyImported(row: HubJob, plan: Plan) {
    && row.filesTotal == row.filesImported == |plan.files|
    && row.logicalBytes == row.bytesImported == TotalSize(plan.files)
    && row.arachneFiles == CountLarge(plan.files, plan.threshold)
    && row.securityCounts == SecurityCounts(plan.files)
  }

  ghost predicate JobOk(rec: JobRecord) {
    var row, claims := rec.row, rec.claims;
    && row.filesImported <= row.filesTotal && row.bytesImported <= row.logicalBytes
    && row.arachneFiles <= row.filesImported
    && (row.status.Queued? ==> row.lockedBy.None? && claims == []
                               && row.filesImported == row.bytesImported == row.arachneFiles == 0)
    && (row.lockedBy.Some? ==> claims != [] && row.lockedBy.value == claims[|claims| - 1])
    && (row.status.Running? ==> row.lockedBy.Some? && row.leaseExpiresAt.Some?)
    && (!row.status.Terminal() <==> rec.ends == [])
    && (row.status.Succeeded? ==>
          var end := rec.ends[|rec.ends| - 1];
          && end.ByImport? && claims != [] && end.w == claims[|claims| - 1] && row.lockedBy.None?
          && FullyImported(row, end.plan) && row.commitId == end.commit && row.operationId == end.op)
    && (row.status.Failed? ==> !rec.ends[|rec.ends| - 1].ByImport?)
    && (row.decodes ==> !rec.doomed && |rec.ends| <= 1 && (row.status.Terminal() ==> row.lockedBy.None?))
    && (forall i, j :: 0 <= i < j < |claims| ==> claims[i] != claims[j])
  }

  /** The worker's own account of its import is consistent, wherever the row has gone meanwhile. */
  ghost predicate LocalsOk(phase: Phase) {
    match phase
    case Importing(plan, done, bytes, arachne) =>
      && done <= |plan.files| && TotalSize(plan.files) <= MAX_IMPORT_BYTES
      && bytes == TotalSize(plan.files[..done]) && arachne == CountLarge(plan.files[..done], plan.threshold)
    case Submitting(plan, arachne) => arachne == CountLarge(plan.files, plan.threshold)
    case _ => true
  }

  /** While the worker holds the row, the row says exactly how far this worker's own import is. */
  ghost predicate RowMirrors(row: HubJob, phase: Phase) {
    match phase
    case Starting => row.filesImported == row.bytesImported == row.arachneFiles == 0
    case Importing(plan, done, bytes, arachne) =>
      && row.filesTotal == |plan.files| && row.logicalBytes == TotalSize(plan.files)
      && row.securityCounts == SecurityCounts(plan.files)
      && row.filesImported == done && row.bytesImported == bytes && row.arachneFiles == arachne
    case Submitting(plan, arachne) => FullyImported(row, plan)
    case Done => false
    case _ => true
  }

  ghost predicate Agree(rec: JobRecord, w: WorkerId, worker: Worker, now: int) {
    && w in rec.claims
    && (w != rec.claims[|rec.claims| - 1] ==> worker.grantedUntil < now)
    && (HeldBy(rec.row, w) ==> rec.row.leaseExpiresAt == Some(worker.grantedUntil) && RowMirrors(rec.row, worker.phase))
    && LocalsOk(worker.phase)
  }

  ghost predicate Inv(s: System) {
    && (forall id :: id in s.jobs ==> JobOk(s.jobs[id]))
    && (forall id, w :: id in s.jobs && w in s.jobs[id].claims ==> w in s.workers)
    && (forall w :: w in s.workers ==>
          s.workers[w].job in s.jobs && Agree(s.jobs[s.workers[w].job], w, s.workers[w], s.now))
  }

  lemma {:induction false} ImportFileStep(rec: JobRecord, w: WorkerId, worker: Worker, now: int, ok: bool)
    requires JobOk(rec) && Agree(rec, w, worker, now)
    ensures var (rec', worker') := DoImportFile(rec, w, worker, ok);
            JobOk(rec') && Agree(rec', w, worker', now)
  {
    hide TotalSize, CountLarge, SecurityCounts, FullyImported;
    var p := worker.phase;
    if p.Importing? && p.done < |p.plan.files| {
      PrefixStep(p.plan.files, p.done, p.plan.threshold);
      PrefixBounds(p.plan.files, p.done + 1, p.plan.threshold);
    }
  }

  lemma {:induction false} PreflightStep(
      rec: JobRecord, w: WorkerId, worker: Worker, now: int, files: seq<HubFile>, limits: Limits, threshold: nat)
    requires JobOk(rec) && Agree(rec, w, worker, now)
    ensures var (rec', worker') := DoPreflight(rec, w, worker, files, limits, threshold);
            JobOk(rec') && Agree(rec', w, worker', now)
  {
    hide TotalSize, CountLarge, SecurityCounts, CheckImport, FullyImported;
    AcceptedImport(files, limits);
    EmptyImport(threshold);
    assert files[..0] == [];
  }

  lemma {:induction false} StepsKeepNames(rec: JobRecord, w: WorkerId, worker: Worker, now: int, step: Step)
    ensures var (rec', worker') := WorkerStep(rec, w, worker, now, step);
            rec'.claims == rec.claims && worker'.job == worker.job
  {
    hide TotalSize, CountLarge, SecurityCounts, CheckImport;
  }

  lemma {:induction false} OwnStep(rec: JobRecord, w: WorkerId, worker: Worker, now: int, step: Step)
    requires JobOk(rec) && Agree(rec, w, worker, now)
    ensures var (rec', worker') := WorkerStep(rec, w, worker, now, step);
            JobOk(rec') && Agree(rec', w, worker', now) && rec'.claims == rec.claims && worker'.job == worker.job
  {
    hide TotalSize, CountLarge, SecurityCounts, CheckImport, DoImportFile, DoPreflight, DoRecordCommit, DoFinalize,
      DoReportFailure;
    StepsKeepNames(rec, w, worker, now, step);
    match step
    case ImportFile(_, ok) => ImportFileStep(rec, w, worker, now, ok);
    case Preflight(_, files, limits, threshold) => PreflightStep(rec, w, worker, now, files, limits, threshold);
    case RecordCommit(_, ok, commit, op) => RecordCommitStep(rec, w, worker, now, ok, commit, op);
    case Finalize(_, ok, commit, op) => FinalizeStep(rec, w, worker, now, ok, commit, op);
    case ReportFailure(_) => ReportFailureStep(rec, w, worker, now);
    case _ => hide RowMirrors, LocalsOk, FullyImported;
  }

  lemma {:induction false} RecordCommitStep(
      rec: JobRecord, w: WorkerId, worker: Worker, now: int, ok: bool, commit: string, op: string)
    requires JobOk(rec) && Agree(rec, w, worker, now)
    ensures var (rec', worker') := DoRecordCommit(rec, w, worker, ok, commit, op);
            JobOk(rec') && Agree(rec', w, worker', now)
  {
    hide TotalSize, CountLarge, SecurityCounts;
    if worker.phase.Importing? {
      assert worker.phase.plan.files[..|worker.phase.plan.files|] == worker.phase.plan.files;
    }
  }

  lemma {:induction false} FinalizeStep(
      rec: JobRecord, w: WorkerId, worker: Worker, now: int, ok: bool, commit: string, op: string)
    requires JobOk(rec) && Agree(rec, w, worker, now)
    ensures var (rec', worker') := DoFinalize(rec, w, worker, now, ok, commit, op);
            JobOk(rec') && Agree(rec', w, worker', now)
  {
    hide TotalSize, CountLarge, SecurityCounts;
  }

  lemma {:induction false} ReportFailureStep(rec: JobRecord, w: WorkerId, worker: Worker, now: int)
    requires JobOk(rec) && Agree(rec, w, worker, now)
    ensures var (rec', worker') := DoReportFailure(rec, w, worker, now);
            JobOk(rec') && Agree(rec', w, worker', now)
  {
    hide TotalSize, CountLarge, SecurityCounts, FullyImported;
  }

  lemma {:induction false} OthersStep(
      rec: JobRecord, w: WorkerId, worker: Worker, v: WorkerId, other: Worker, now: int, step: Step)
    requires JobOk(rec) && Agree(rec, w, worker, now) && Agree(rec, v, other, now) && v != w
    ensures Agree(WorkerStep(rec, w, worker, now, step).0, v, other, now)
  {
    hide TotalSize, CountLarge, SecurityCounts, CheckImport, LocalsOk;
  }

  lemma {:induction false} ClaimStep(rec: JobRecord, w: WorkerId, id: JobId, now: int)
    requires JobOk(rec) && Claimable(rec.row, now) && w !in rec.claims
    ensures JobOk(ClaimRecord(rec, w, now))
    ensures Agree(ClaimRecord(rec, w, now), w, Worker(id, now + LEASE_SECONDS, Starting), now)
  {
  }

  lemma {:induction false} ClaimOthersStep(rec: JobRecord, w: WorkerId, v: WorkerId, other: Worker, now: int)
    requires JobOk(rec) && Claimable(rec.row, now) && w !in rec.claims && Agree(rec, v, other, now)
    ensures Agree(ClaimRecord(rec, w, now), v, other, now)
  {
  }

  lemma {:induction false} WorkerStepKeepsInv(s: System, step: Step)
    requires Inv(s) && ByWorker(step) && step.w in s.workers
    ensures Inv(Apply(s, step))
  {
    hide JobOk, Agree, WorkerStep;
    var s', worker := Apply(s, step), s.workers[step.w];
    var rec := s.jobs[worker.job];
    OwnStep(rec, step.w, worker, s.now, step);
    forall v | v in s.workers ensures Agree(s'.jobs[s'.workers[v].job], v, s'.workers[v], s'.now) {
      if v != step.w && s.workers[v].job == worker.job {
        OthersStep(rec, step.w, worker, v, s.workers[v], s.now, step);
      }
    }
  }

  lemma {:induction false} ClaimKeepsInv(s: System, w: WorkerId, id: JobId)
    requires Inv(s)
    ensures Inv(Apply(s, Claim(w, id)))
  {
    hide JobOk, Agree, Claimed;
    var s' := Apply(s, Claim(w, id));
    if s' != s {
      ClaimStep(s.jobs[id], w, id, s.now);
      forall v | v in s'.workers ensures Agree(s'.jobs[s'.workers[v].job], v, s'.workers[v], s'.now) {
        if v != w && s.workers[v].job == id {
          ClaimOthersStep(s.jobs[id], w, v, s.workers[v], s.now);
        }
      }
    }
  }

  lemma {:induction false} ScanStep(rec: JobRecord, now: int)
    requires JobOk(rec)
    ensures JobOk(ScanRecord(rec, now)) && JobOk(DoomRecord(rec, now))
    ensures ScanRecord(rec, now).claims == DoomRecord(rec, now).claims == rec.claims
    ensures forall w, worker, at :: Agree(rec, w, worker, at) ==>
              Agree(ScanRecord(rec, now), w, worker, at) && Agree(DoomRecord(rec, now), w, worker, at)
  {
  }

  lemma {:induction false} AgreeAges(rec: JobRecord, w: WorkerId, worker: Worker, now: int, seconds: nat)
    requires Agree(rec, w, worker, now)
    ensures Agree(rec, w, worker, now + seconds)
  {
  }

  lemma {:induction false} RowStepKeepsInv(s: System, id: JobId, rec: JobRecord)
    requires Inv(s) && id in s.jobs && JobOk(rec) && rec.claims == s.jobs[id].claims
    requires forall w, worker, at :: Agree(s.jobs[id], w, worker, at) ==> Agree(rec, w, worker, at)
    ensures Inv(s.(jobs := s.jobs[id := rec]))
  {
    hide JobOk, Agree;
  }

  lemma {:induction false} TickKeepsInv(s: System, seconds: nat)
    requires Inv(s)
    ensures Inv(s.(now := s.now + seconds))
  {
    hide JobOk, Agree;
    forall w | w in s.workers ensures Agree(s.jobs[s.workers[w].job], w, s.workers[w], s.now + seconds) {
      AgreeAges(s.jobs[s.workers[w].job], w, s.workers[w], s.now, seconds);
    }
  }

  lemma {:induction false} CreateKeepsInv(s: System, id: JobId, decodes: bool)
    requires Inv(s) && id !in s.jobs
    ensures Inv(s.(jobs := s.jobs[id := JobRecord(NewJob(decodes), false, [], [])]))
  {
    assert JobOk(JobRecord(NewJob(decodes), false, [], []));
    hide JobOk, Agree;
  }

  lemma {:induction false} StepKeepsInv(s: System, step: Step)
    requires Inv(s)
    ensures Inv(Apply(s, step))
  {
    hide Inv, JobOk, Agree, WorkerStep;
    if ByWorker(step) {
      if step.w in s.workers { WorkerStepKeepsInv(s, step); }
    } else {
      match step
      case Claim(w, id) => ClaimKeepsInv(s, w, id);
      case Tick(seconds) => TickKeepsInv(s, seconds);
      case Create(id, decodes) => if id !in s.jobs { CreateKeepsInv(s, id, decodes); }
      case ScanUndecodable(id) => if id in s.jobs { ScanKeepsInv(s, id); }
      case FailUndecodable(id) => if id in s.jobs { ScanKeepsInv(s, id); }
    }
  }

  lemma {:induction false} ScanKeepsInv(s: System, id: JobId)
    requires Inv(s) && id in s.jobs
    ensures Inv(s.(jobs := s.jobs[id := ScanRecord(s.jobs[id], s.now)]))
    ensures Inv(s.(jobs := s.jobs[id := DoomRecord(s.jobs[id], s.now)]))
  {
    hide JobOk, Agree, ScanRecord, DoomRecord;
    ScanStep(s.jobs[id], s.now);
    RowStepKeepsInv(s, id, ScanRecord(s.jobs[id], s.now));
    RowStepKeepsInv(s, id, DoomRecord(s.jobs[id], s.now));
  }

  lemma {:induction false} ExecKeepsInv(s: System, steps: seq<Step>)
    requires Inv(s)
    ensures Inv(Exec(s, steps))
    decreases |steps|
  {
    if steps != [] {
      StepKeepsInv(s, steps[0]);
      ExecKeepsInv(Apply(s, steps[0]), steps[1..]);
    }
  }
}
