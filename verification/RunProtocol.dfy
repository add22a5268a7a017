/** Any number of workers competing for Action runs.

    A behaviour is a sequence of steps, each one SQL statement, clock tick or crash by some worker, in
    any order: a step whose guard is false leaves the system as it is.  `Exec` over every step sequence
    therefore covers every interleaving. */
module RunProtocol {
  import opened Prelude
  import opened ActionRuns
  import opened Behaviours

  datatype Phase =
    | Executing                                                        // claimed, job in the sandbox
    | Finishing(update: FinishedRun, at: int, computed: Option<ActionRun>) // row read, update computed
    | Logging(text: string)                                            // guarded update took effect
    | Done
    | Crashed

  /** What one worker knows: the run it claimed, the clock value it wrote there, how long the database
      last promised it the lease, and where it is in the code. */
  datatype Worker = Worker(run: RunId, startedAt: int, grantedUntil: int, phase: Phase)

  /** A release as its row is read back. */
  datatype Release = Release(commitId: string, manifest: string, manifestSha256: string)

  /** The digest of a manifest, whether it says the repository is ready, and what the `jsonb` column gives back
      for it. */
  datatype Manifests = Manifests(digest: string -> string, ready: string -> bool, stored: string -> string)

  /** Recomputed from the stored manifest on every read. */
  predicate Verified(m: Manifests, r: Release) { m.digest(r.manifest) == r.manifestSha256 }

  type ReleaseTable = map<(string, string), Release>

  /** The release a create handler has read and not yet used. */
  datatype Binding = Binding(repo: string, version: string, release: Release)

  datatype RunRequest = RunRequest(repo: string, commitId: string, branch: string, actor: string, workflow: string)

  datatype Finish = Finish(w: WorkerId, update: FinishedRun, at: int)

  /** One run's row and log.  `claims` and `finishes` record, in order, the claims and the finishing
      updates of this run that reported one affected row. */
  datatype RunRecord = RunRecord(row: ActionRun, log: string, claims: seq<WorkerId>, finishes: seq<Finish>)

  datatype System = System(
    runs: map<RunId, RunRecord>, releases: ReleaseTable, manifests: Manifests, now: int,
    workers: map<WorkerId, Worker>, handlers: map<nat, Binding>)

  datatype Step =
    | CreateRelease(repo: string, version: string, commitId: string, manifest: string)
    | ReadRelease(handler: nat, repo: string, version: string)
    | CreateRun(id: RunId, request: RunRequest, headCommit: string, reader: Option<nat>, provider: string, millis: int)
    | CreatePushRun(id: RunId, repo: string, sha: string, provider: string, millis: int)
    | Claim(w: WorkerId, id: RunId, millis: int)
    | Renew(w: WorkerId)
    | Tick(seconds: nat)
    | Crash(w: WorkerId)
    | ReadForFinish(w: WorkerId, update: FinishedRun, at: int)
    | GuardedFinish(w: WorkerId)
    | WriteLog(w: WorkerId)

  function Init(m: Manifests): System { System(map[], map[], m, 0, map[], map[]) }

  predicate IsSpace(c: char) {
    var n := c as int;
    0x09 <= n <= 0x0D || n == 0x20 || n == 0x85 || n == 0xA0 || n == 0x1680 || 0x2000 <= n <= 0x200A
    || n == 0x2028 || n == 0x2029 || n == 0x202F || n == 0x205F || n == 0x3000
  }

  /** Trims to nothing. */
  predicate Blank(s: string) { forall i :: 0 <= i < |s| ==> IsSpace(s[i]) }

  /** What the create handler stores, or nothing when it answers with an error.  The workflow name has been
      trimmed and lowercased. */
  function PlanRun(m: Manifests, request: RunRequest, headCommit: string, binding: Option<Binding>)
    : Option<Provenance>
  {
    match binding
    case Some(b) =>
      if b.repo == request.repo && b.version != "" && Verified(m, b.release) && m.ready(b.release.manifest)
         && request.workflow in ["ci", "evaluate", "inference", "benchmark"]
         && (Blank(request.commitId) || request.commitId == b.release.commitId) && b.release.commitId != ""
      then Some(Provenance(request.repo, b.release.commitId, request.branch, "release", request.actor,
                           request.workflow, b.version, b.release.manifestSha256))
      else None
    case None =>
      var commit := if Blank(request.commitId) then headCommit else request.commitId;
      if request.workflow == "ci" && commit != ""
      then Some(Provenance(request.repo, commit, request.branch, "manual", request.actor,
                           request.workflow, "", ""))
      else None
  }

  function BindingOf(s: System, handler: Option<nat>): Option<Binding> {
    match handler
    case None => None
    case Some(h) => if h in s.handlers then Some(s.handlers[h]) else None
  }

  /** Write back one run and one worker. */
  function Put(s: System, id: RunId, rec: RunRecord, w: WorkerId, worker: Worker): System {
    s.(runs := s.runs[id := rec], workers := s.workers[w := worker])
  }

  function DoCreateRun(s: System, id: RunId, request: RunRequest, headCommit: string,
                       reader: Option<nat>, provider: string, millis: int): System
  {
    var binding := BindingOf(s, reader);
    var plan := PlanRun(s.manifests, request, headCommit, binding);
    if plan.None? || (reader.Some? && binding.None?) then s else Insert(s, id, plan.value, provider, millis)
  }

  /** Run and empty log; a taken id changes nothing. */
  function Insert(s: System, id: RunId, provenance: Provenance, provider: string, millis: int): System {
    if id in s.runs then s
    else s.(runs := s.runs[id := RunRecord(BuildRun(id, provenance, provider, millis), "", [], [])])
  }

  /** The run a push webhook starts. */
  function PushProvenance(repo: string, sha: string): Provenance {
    Provenance(repo, sha, "main", "push", "forgejo", "ci", "", "")
  }

  function ClaimRecord(rec: RunRecord, w: WorkerId, now: int, millis: int): RunRecord {
    rec.(row := Claimed(rec.row, w, now, millis), claims := rec.claims + [w])
  }

  function DoClaim(s: System, w: WorkerId, id: RunId, millis: int): System {
    if w in s.workers || id !in s.runs || !Claimable(s.runs[id].row, s.now) then s
    else Put(s, id, ClaimRecord(s.runs[id], w, s.now, millis),
             w, Worker(id, millis, s.now + LEASE_SECONDS, Executing))
  }

  /** A step of a live worker `w` on the run it claimed, given what the worker and its run become. */
  function DoRenew(rec: RunRecord, w: WorkerId, worker: Worker, now: int): (RunRecord, Worker) {
    if HeldBy(rec.row, w) && rec.row.status.Running?
    then (rec.(row := Renewed(rec.row, now)), worker.(grantedUntil := now + LEASE_SECONDS))
    else (rec, worker)
  }

  function DoReadForFinish(rec: RunRecord, worker: Worker, update: FinishedRun, at: int): (RunRecord, Worker) {
    if worker.phase.Executing? && update.status.Terminal()
    then (rec, worker.(phase := Finishing(update, at, Some(Finished(rec.row, update, at)))))
    else (rec, worker)
  }

  /** The guarded update with the row it would leave, and what the worker does with the row count. */
  function FinishWith(rec: RunRecord, w: WorkerId, worker: Worker, row: ActionRun): (RunRecord, Worker)
    requires worker.phase.Finishing?
  {
    if HeldBy(rec.row, w)
    then (rec.(row := row, finishes := rec.finishes + [Finish(w, worker.phase.update, worker.phase.at)]),
          worker.(phase := Logging(worker.phase.update.logs)))
    else (rec, worker.(phase := Done))
  }

  function DoGuardedFinish(rec: RunRecord, w: WorkerId, worker: Worker): (RunRecord, Worker) {
    if worker.phase.Finishing? && worker.phase.computed.Some?
    then FinishWith(rec, w, worker, Overwritten(rec.row, worker.phase.computed.value))
    else (rec, worker)
  }

  function DoWriteLog(rec: RunRecord, worker: Worker): (RunRecord, Worker) {
    if worker.phase.Logging? then (rec.(log := worker.phase.text), worker.(phase := Done)) else (rec, worker)
  }

  /** A worker's own steps: they read and write its run and its local state only. */
  function WorkerStep(rec: RunRecord, w: WorkerId, worker: Worker, now: int, step: Step): (RunRecord, Worker) {
    if worker.phase.Crashed? then (rec, worker)
    else match step
      case Renew(_) => DoRenew(rec, w, worker, now)
      case Crash(_) => (rec, worker.(phase := Crashed))
      case ReadForFinish(_, update, at) => DoReadForFinish(rec, worker, update, at)
      case GuardedFinish(_) => DoGuardedFinish(rec, w, worker)
      case WriteLog(_) => DoWriteLog(rec, worker)
      case _ => (rec, worker)
  }

  predicate ByWorker(step: Step) {
    step.Renew? || step.Crash? || step.ReadForFinish? || step.GuardedFinish? || step.WriteLog?
  }

  function Apply(s: System, step: Step): System {
    if ByWorker(step) then
      if step.w in s.workers && s.workers[step.w].run in s.runs then
        var worker := s.workers[step.w];
        var (rec, worker') := WorkerStep(s.runs[worker.run], step.w, worker, s.now, step);
        Put(s, worker.run, rec, step.w, worker')
      else s
    else match step
      case CreateRelease(repo, version, commitId, manifest) =>
        if (repo, version) in s.releases then s
        else
          var release := Release(commitId, s.manifests.stored(manifest), s.manifests.digest(manifest));
          s.(releases := s.releases[(repo, version) := release])
      case ReadRelease(h, repo, version) =>
        if (repo, version) in s.releases
        then s.(handlers := s.handlers[h := Binding(repo, version, s.releases[(repo, version)])])
        else s
      case CreateRun(id, request, head, reader, provider, millis) =>
        DoCreateRun(s, id, request, head, reader, provider, millis)
      case CreatePushRun(id, repo, sha, provider, millis) =>
        Insert(s, id, PushProvenance(repo, sha), provider, millis)
      case Claim(w, id, millis) => DoClaim(s, w, id, millis)
      case Tick(seconds) => s.(now := s.now + seconds)
      case _ => s
  }

  function Exec(s: System, steps: seq<Step>): System { Run(Apply, s, steps) }

  /** What a step does to one run: nothing, a claim, or a step of the worker that claimed it. */
  lemma {:induction false} StepOnRun(s: System, step: Step, id: RunId)
    requires id in s.runs
    ensures id in Apply(s, step).runs
    ensures var rec, rec' := s.runs[id], Apply(s, step).runs[id];
            || rec' == rec
            || (step.Claim? && step.id == id && step.w !in s.workers && Claimable(rec.row, s.now)
                && rec' == ClaimRecord(rec, step.w, s.now, step.millis))
            || (ByWorker(step) && step.w in s.workers && s.workers[step.w].run == id
                && rec' == WorkerStep(rec, step.w, s.workers[step.w], s.now, step).0)
  {
    hide WorkerStep, ClaimRecord, Claimable, PlanRun, BuildRun;
  }

  /** What a step does to one worker: nothing, or its own step on the run it claimed. */
  lemma {:induction false} StepOnWorker(s: System, step: Step, w: WorkerId)
    requires w in s.workers
    ensures w in Apply(s, step).workers
    ensures var worker, worker' := s.workers[w], Apply(s, step).workers[w];
            || worker' == worker
            || (ByWorker(step) && step.w == w && worker.run in s.runs
                && worker' == WorkerStep(s.runs[worker.run], w, worker, s.now, step).1)
  {
    hide WorkerStep, ClaimRecord, Claimable, PlanRun, BuildRun;
  }

  /** Releases are only ever added, and what a manifest means never changes. */
  lemma {:induction false} StepKeepsReleases(s: System, step: Step)
    ensures Apply(s, step).manifests == s.manifests
    ensures forall k :: k in s.releases ==> k in Apply(s, step).releases && Apply(s, step).releases[k] == s.releases[k]
  {
    hide WorkerStep, ClaimRecord, Claimable, PlanRun, BuildRun;
  }

  // ---------------------------------------------------------------- the inductive invariant

  ghost predicate Pinned(m: Manifests, releases: ReleaseTable, p: Provenance) {
    p.releaseVersion != "" ==>
      && (p.repo, p.releaseVersion) in releases
      && var r := releases[(p.repo, p.releaseVersion)];
         && Verified(m, r) && m.ready(r.manifest)
         && p.commitId == r.commitId && p.releaseManifestSha256 == r.manifestSha256
  }

  /** What holds of one run on its own. */
  ghost predicate RecordOk(rec: RunRecord) {
    var run, claims := rec.row, rec.claims;
    && run.attempt == |claims|
    && (run.status.Queued? <==> claims == [])
    && (run.status.Queued? ==> run.lockedBy.None?)
    && (run.status.Running? ==> HeldBy(run, claims[|claims| - 1]) && run.leaseExpiresAt.Some?)
    && (!run.status.Terminal() ==> rec.finishes == [] && rec.log == "")
    && (run.status.Terminal() ==> run.lockedBy.None? && |rec.finishes| == 1 && Won(rec, rec.finishes[0]))
    && (forall i, j :: 0 <= i < j < |claims| ==> claims[i] != claims[j])
  }

  /** The run carries exactly what finish `f` reported, and `f` came from the last claimer. */
  ghost predicate Won(rec: RunRecord, f: Finish) {
    && rec.claims != [] && f.w == rec.claims[|rec.claims| - 1]
    && f.update.status.Terminal()
    && rec.row.status == f.update.status && rec.row.conclusion == f.update.conclusion
    && rec.row.sandboxId == f.update.sandboxId
    && (f.update.provider != "" ==> rec.row.provider == f.update.provider)
    && rec.row.finishedAtMillis == f.at
    && rec.row.durationMs == Duration(rec.row.startedAtMillis, f.at)
    && (rec.row.jobs != [] ==> rec.row.jobs[0].status == f.update.status
                               && rec.row.jobs[0].exitCode == f.update.exitCode)
    && (rec.log == "" || rec.log == f.update.logs)
  }

  /** What holds between a run and any worker that ever claimed it. */
  ghost predicate Agree(rec: RunRecord, w: WorkerId, worker: Worker, now: int) {
    && w in rec.claims
    && worker.grantedUntil <= now + LEASE_SECONDS
    && (w != rec.claims[|rec.claims| - 1] ==> worker.grantedUntil < now)
    && (HeldBy(rec.row, w) ==> rec.row.leaseExpiresAt == Some(worker.grantedUntil)
                               && rec.row.startedAtMillis == worker.startedAt)
    && (rec.row.status.Terminal() && w == rec.claims[|rec.claims| - 1] ==>
          rec.row.startedAtMillis == worker.startedAt && !worker.phase.Executing? && !worker.phase.Finishing?)
    && (worker.phase.Finishing? ==>
          && worker.phase.update.status.Terminal()
          && worker.phase.computed.Some?
          && (HeldBy(rec.row, w) ==>
                Overwritten(rec.row, worker.phase.computed.value)
                == AtomicallyFinished(rec.row, worker.phase.update, worker.phase.at)))
    && (worker.phase.Logging? ==>
          rec.row.status.Terminal() && w == rec.claims[|rec.claims| - 1] && rec.log == ""
          && |rec.finishes| == 1 && worker.phase.text == rec.finishes[0].update.logs)
  }

  ghost predicate Inv(s: System) {
    && (forall id :: id in s.runs ==>
          RecordOk(s.runs[id]) && Pinned(s.manifests, s.releases, s.runs[id].row.provenance))
    && (forall id, w :: id in s.runs && w in s.runs[id].claims ==> w in s.workers)
    && (forall w :: w in s.workers ==>
          s.workers[w].run in s.runs && Agree(s.runs[s.workers[w].run], w, s.workers[w], s.now))
    && (forall h :: h in s.handlers ==>
          var b := s.handlers[h];
          (b.repo, b.version) in s.releases && s.releases[(b.repo, b.version)] == b.release)
  }

  // Each step is checked on one run and one worker at a time, without the maps around them.

  lemma {:induction false} OwnStep(rec: RunRecord, w: WorkerId, worker: Worker, now: int, step: Step)
    requires RecordOk(rec) && Agree(rec, w, worker, now)
    ensures var (rec', worker') := WorkerStep(rec, w, worker, now, step);
            RecordOk(rec') && Agree(rec', w, worker', now)
            && rec'.claims == rec.claims && rec'.row.provenance == rec.row.provenance
            && worker'.run == worker.run
  {
  }

  lemma {:induction false} OthersStep(
      rec: RunRecord, w: WorkerId, worker: Worker, v: WorkerId, other: Worker, now: int, step: Step)
    requires RecordOk(rec) && Agree(rec, w, worker, now) && Agree(rec, v, other, now) && v != w
    ensures Agree(WorkerStep(rec, w, worker, now, step).0, v, other, now)
  {
  }

  lemma {:induction false} ClaimStep(rec: RunRecord, w: WorkerId, id: RunId, now: int, millis: int)
    requires RecordOk(rec) && Claimable(rec.row, now) && w !in rec.claims
    ensures var rec' := ClaimRecord(rec, w, now, millis);
            RecordOk(rec') && Agree(rec', w, Worker(id, millis, now + LEASE_SECONDS, Executing), now)
  {
  }

  lemma {:induction false} ClaimOthersStep(
      rec: RunRecord, w: WorkerId, v: WorkerId, other: Worker, now: int, millis: int)
    requires RecordOk(rec) && Claimable(rec.row, now) && w !in rec.claims && Agree(rec, v, other, now)
    ensures Agree(ClaimRecord(rec, w, now, millis), v, other, now)
  {
  }

  lemma {:induction false} WorkerStepKeepsInv(s: System, step: Step)
    requires Inv(s) && ByWorker(step) && step.w in s.workers
    ensures Inv(Apply(s, step))
  {
    hide RecordOk, Agree, WorkerStep, Pinned;
    var s', worker := Apply(s, step), s.workers[step.w];
    var rec := s.runs[worker.run];
    OwnStep(rec, step.w, worker, s.now, step);
    forall v | v in s.workers ensures Agree(s'.runs[s'.workers[v].run], v, s'.workers[v], s'.now) {
      if v != step.w && s.workers[v].run == worker.run {
        OthersStep(rec, step.w, worker, v, s.workers[v], s.now, step);
      }
    }
  }

  lemma {:induction false} ClaimKeepsInv(s: System, w: WorkerId, id: RunId, millis: int)
    requires Inv(s)
    ensures Inv(DoClaim(s, w, id, millis))
  {
    hide RecordOk, Agree, Pinned;
    var s' := DoClaim(s, w, id, millis);
    if s' != s {
      ClaimStep(s.runs[id], w, id, s.now, millis);
      forall v | v in s'.workers ensures Agree(s'.runs[s'.workers[v].run], v, s'.workers[v], s'.now) {
        if v != w && s.workers[v].run == id {
          ClaimOthersStep(s.runs[id], w, v, s.workers[v], s.now, millis);
        }
      }
    }
  }

  lemma {:induction false} FreshRecordOk(id: RunId, provenance: Provenance, provider: string, millis: int)
    ensures RecordOk(RunRecord(BuildRun(id, provenance, provider, millis), "", [], []))
  {
  }

  lemma {:induction false} InsertKeepsInv(s: System, id: RunId, provenance: Provenance, provider: string, millis: int)
    requires Inv(s) && Pinned(s.manifests, s.releases, provenance)
    ensures Inv(Insert(s, id, provenance, provider, millis))
  {
    hide RecordOk, Agree, Pinned;
    FreshRecordOk(id, provenance, provider, millis);
  }

  /** What the create handler plans from a stored release is pinned to it. */
  lemma {:induction false} PlanIsPinned(s: System, request: RunRequest, headCommit: string, binding: Option<Binding>)
    requires var plan := PlanRun(s.manifests, request, headCommit, binding); plan.Some?
    requires binding.Some? ==> (binding.value.repo, binding.value.version) in s.releases
                               && s.releases[(binding.value.repo, binding.value.version)] == binding.value.release
    ensures Pinned(s.manifests, s.releases, PlanRun(s.manifests, request, headCommit, binding).value)
  {
  }

  lemma {:induction false} CreateKeepsInv(s: System, step: Step)
    requires Inv(s) && (step.CreateRun? || step.CreatePushRun?)
    ensures Inv(Apply(s, step))
  {
    hide RecordOk, Agree, Pinned, PlanRun, Insert, WorkerStep;
    if step.CreateRun? {
      var binding := BindingOf(s, step.reader);
      var plan := PlanRun(s.manifests, step.request, step.headCommit, binding);
      if plan.Some? {
        PlanIsPinned(s, step.request, step.headCommit, binding);
        InsertKeepsInv(s, step.id, plan.value, step.provider, step.millis);
      }
    } else {
      PushIsUnpinned(s, step.repo, step.sha);
      InsertKeepsInv(s, step.id, PushProvenance(step.repo, step.sha), step.provider, step.millis);
    }
  }

  lemma {:induction false} PushIsUnpinned(s: System, repo: string, sha: string)
    ensures Pinned(s.manifests, s.releases, PushProvenance(repo, sha))
  {
  }

  lemma {:induction false} ReleaseKeepsInv(s: System, step: Step)
    requires Inv(s) && (step.CreateRelease? || step.ReadRelease?)
    ensures Inv(Apply(s, step))
  {
    hide RecordOk, Agree, WorkerStep;
  }

  lemma {:induction false} TickOk(s: System, seconds: nat)
    requires Inv(s)
    ensures Inv(s.(now := s.now + seconds))
  {
    forall w | w in s.workers
      ensures Agree(s.runs[s.workers[w].run], w, s.workers[w], s.now + seconds)
    {
      assert Agree(s.runs[s.workers[w].run], w, s.workers[w], s.now);
    }
  }

  lemma {:induction false} StepKeepsInv(s: System, step: Step)
    requires Inv(s)
    ensures Inv(Apply(s, step))
  {
    hide Inv, WorkerStep, Put;
    if ByWorker(step) {
      if step.w in s.workers { WorkerStepKeepsInv(s, step); }
    } else {
      match step
      case Claim(w, id, millis) => ClaimKeepsInv(s, w, id, millis);
      case Tick(seconds) => TickOk(s, seconds);
      case CreateRun(_, _, _, _, _, _) => CreateKeepsInv(s, step);
      case CreatePushRun(_, _, _, _, _) => CreateKeepsInv(s, step);
      case CreateRelease(_, _, _, _) => ReleaseKeepsInv(s, step);
      case ReadRelease(_, _, _) => ReleaseKeepsInv(s, step);
    }
  }

  lemma {:induction false} ExecKeepsInv(s: System, steps: seq<Step>)
    requires Inv(s)
    ensures Inv(Exec(s, steps))
    decreases |steps|
  {
    if steps != [] {
      StepKeepsInv(s, steps[0]);
      ExecKeepsInv(Apply(s, steps[0]), steps[1..]);
    }
  }
}
