/** The `hub_import_jobs` table and the import worker that fills it in.  As for Action runs, one SQL
    statement is one step and `now` is the database clock in seconds. */
module HubJobs {
  import opened Prelude
  import opened Tally

  type JobId = string
  type WorkerId = string
  type JobTable = map<JobId, HubJob>

  const LEASE_SECONDS: int := 30
  const MAX_IMPORT_FILES: nat := 1_000
  const MAX_IMPORT_BYTES: nat := 1024 * 1024 * 1024 * 1024

  datatype HubFile = HubFile(path: string, size: nat, security: string)

  datatype JobStatus = Queued | Running | Succeeded | Failed {
    predicate Terminal() { Succeeded? || Failed? }
  }

  /** `decodes` says whether the stored request can be read back by the recovery scan. */
  datatype HubJob = HubJob(
    decodes: bool, status: JobStatus,
    filesTotal: nat, filesImported: nat, logicalBytes: nat, bytesImported: nat, arachneFiles: nat,
    securityCounts: map<string, nat>, commitId: string, operationId: string, error: string,
    startedAt: Option<int>, completedAt: Option<int>,
    lockedBy: Option<WorkerId>, leaseExpiresAt: Option<int>)

  function NewJob(decodes: bool): HubJob {
    HubJob(decodes, Queued, 0, 0, 0, 0, 0, map[], "", "", "", None, None, None, None)
  }

  predicate Claimable(job: HubJob, now: int) {
    job.status.Queued?
    || (job.status.Running? && (job.leaseExpiresAt.None? || job.leaseExpiresAt.value < now))
  }

  predicate HeldBy(job: HubJob, w: WorkerId) {
    job.lockedBy == Some(w)
  }

  /** Taking over a running job restarts its progress counters; totals and commit ids stay until the new
      worker writes its own. */
  function Claimed(job: HubJob, w: WorkerId, now: int): HubJob {
    job.(filesImported := if job.status.Running? then 0 else job.filesImported,
         bytesImported := if job.status.Running? then 0 else job.bytesImported,
         arachneFiles := if job.status.Running? then 0 else job.arachneFiles,
         status := Running, startedAt := if job.startedAt.Some? then job.startedAt else Some(now),
         lockedBy := Some(w), leaseExpiresAt := Some(now + LEASE_SECONDS),
         completedAt := None, error := "")
  }

  function Preflighted(job: HubJob, files: seq<HubFile>, logicalBytes: nat): HubJob {
    job.(filesTotal := |files|, logicalBytes := logicalBytes, securityCounts := SecurityCounts(files))
  }

  function Progressed(job: HubJob, bytes: nat, arachne: nat): HubJob {
    job.(filesImported := job.filesImported + 1, bytesImported := bytes, arachneFiles := arachne)
  }

  function Finalized(job: HubJob, files: seq<HubFile>, logicalBytes: nat, arachne: nat, commit: string, op: string,
                     now: int): HubJob
  {
    job.(status := Succeeded, filesImported := |files|, bytesImported := logicalBytes, arachneFiles := arachne,
         securityCounts := SecurityCounts(files), commitId := commit, operationId := op,
         completedAt := Some(now), error := "", lockedBy := None, leaseExpiresAt := None)
  }

  function FailedJob(job: HubJob, error: string, now: int): HubJob {
    job.(status := Failed, error := error, completedAt := Some(now), lockedBy := None, leaseExpiresAt := None)
  }

  /** The scan's own failure update: no lease is checked and none is released. */
  function FailedUndecodable(job: HubJob, now: int): HubJob {
    job.(status := Failed, error := "cannot recover import request", completedAt := Some(now))
  }

  // ---------------------------------------------------------------- what an import adds up to

  function TotalSize(files: seq<HubFile>): nat {
    if files == [] then 0 else TotalSize(files[..|files| - 1]) + files[|files| - 1].size
  }

  predicate Large(file: HubFile, threshold: nat) {
    file.size >= threshold && file.size > 0
  }

  function CountLarge(files: seq<HubFile>, threshold: nat): nat {
    if files == [] then 0
    else CountLarge(files[..|files| - 1], threshold) + (if Large(files[|files| - 1], threshold) then 1 else 0)
  }

  function SecurityCounts(files: seq<HubFile>): map<string, nat> {
    if files == [] then map[] else Count(SecurityCounts(files[..|files| - 1]), files[|files| - 1].security)
  }

  lemma {:induction false} EmptyImport(threshold: nat)
    ensures TotalSize([]) == 0 && CountLarge([], threshold) == 0 && SecurityCounts([]) == map[]
  {
  }

  lemma {:induction false} PrefixStep(files: seq<HubFile>, k: nat, threshold: nat)
    requires k < |files|
    ensures TotalSize(files[..k + 1]) == TotalSize(files[..k]) + files[k].size
    ensures CountLarge(files[..k + 1], threshold)
            == CountLarge(files[..k], threshold) + (if Large(files[k], threshold) then 1 else 0)
    ensures SecurityCounts(files[..k + 1]) == Count(SecurityCounts(files[..k]), files[k].security)
  {
    assert files[..k + 1][..k] == files[..k];
  }

  lemma {:induction false} PrefixBounds(files: seq<HubFile>, k: nat, threshold: nat)
    requires k <= |files|
    ensures TotalSize(files[..k]) <= TotalSize(files)
    ensures CountLarge(files[..k], threshold) <= k
    decreases |files| - k
  {
    LargeAtMost(files[..k], threshold);
    if k < |files| {
      PrefixBounds(files, k + 1, threshold);
      PrefixStep(files, k, threshold);
    } else {
      assert files[..k] == files;
    }
  }

  lemma {:induction false} LargeAtMost(files: seq<HubFile>, threshold: nat)
    ensures CountLarge(files, threshold) <= |files|
    decreases |files|
  {
    if files != [] {
      LargeAtMost(files[..|files| - 1], threshold);
    }
  }

  datatype Limits = Limits(maxFiles: nat, maxTotalBytes: nat, allowUnsafe: bool)

  predicate Blocked(file: HubFile) {
    file.security in {"unsafe", "suspicious", "caution"}
  }

  function CheckedSum(files: seq<HubFile>): Option<nat> {
    if files == [] then Some(0)
    else
      match CheckedSum(files[..|files| - 1])
      case None => None
      case Some(total) =>
        if total + files[|files| - 1].size > U64_MAX then None else Some(total + files[|files| - 1].size)
  }

  function CheckImport(files: seq<HubFile>, limits: Limits): Result<nat, string> {
    if !(1 <= limits.maxFiles <= MAX_IMPORT_FILES) then Err("max_files out of range")
    else if limits.maxTotalBytes == 0 || limits.maxTotalBytes > MAX_IMPORT_BYTES
    then Err("max_total_bytes out of range")
    else if files == [] then Err("Hub import selected no files")
    else if |files| > limits.maxFiles then Err("Hub import selected too many files")
    else
      match CheckedSum(files)
      case None => Err("Hub repository size overflow")
      case Some(total) =>
        if total > limits.maxTotalBytes then Err("Hub import is too large")
        else if !limits.allowUnsafe && exists i :: 0 <= i < |files| && Blocked(files[i])
        then Err("Hub security scan blocked")
        else Ok(total)
  }

  /** The checked fold is the plain sum whenever that fits sixty-four bits, and an error otherwise. */
  lemma {:induction false} CheckedSumExact(files: seq<HubFile>)
    ensures CheckedSum(files) == if TotalSize(files) <= U64_MAX then Some(TotalSize(files)) else None
    decreases |files|
  {
    if files != [] {
      CheckedSumExact(files[..|files| - 1]);
    }
  }

  /** Exactly which selections are imported, and that the size they are imported with is the true one. */
  lemma {:induction false} AcceptedImport(files: seq<HubFile>, limits: Limits)
    ensures CheckImport(files, limits).Ok? <==>
              && 1 <= limits.maxFiles <= 1_000 && 0 < limits.maxTotalBytes <= 1_099_511_627_776
              && 1 <= |files| <= limits.maxFiles && TotalSize(files) <= limits.maxTotalBytes
              && (limits.allowUnsafe
                  || !exists i :: 0 <= i < |files| && (files[i].security == "unsafe"
                       || files[i].security == "suspicious" || files[i].security == "caution"))
    ensures CheckImport(files, limits).Ok? ==> CheckImport(files, limits).value == TotalSize(files)
  {
    CheckedSumExact(files);
  }

  function Statuses(files: seq<HubFile>): seq<string> {
    seq(|files|, i requires 0 <= i < |files| => files[i].security)
  }

  lemma {:induction false} CountsAreTallies(files: seq<HubFile>)
    ensures Tallies(SecurityCounts(files), Statuses(files))
    decreases |files|
  {
    hide Tallies, Count;
    if files == [] {
      NothingTallied();
    } else {
      var init, last := files[..|files| - 1], files[|files| - 1];
      CountsAreTallies(init);
      TallyOneMore(SecurityCounts(init), Statuses(init), last.security);
      assert Statuses(files) == Statuses(init) + [last.security];
    }
  }

  /** The counts have a key for exactly the statuses that occur, and say how often each does. */
  lemma {:induction false} SecurityCountsExactly(files: seq<HubFile>)
    ensures forall k :: k in SecurityCounts(files) <==> exists i :: 0 <= i < |files| && files[i].security == k
    ensures forall k :: k in SecurityCounts(files) ==> SecurityCounts(files)[k] == multiset(Statuses(files))[k]
  {
    hide SecurityCounts, Count;
    CountsAreTallies(files);
    forall k ensures k in Statuses(files) <==> exists i :: 0 <= i < |files| && files[i].security == k {
      assert forall i :: 0 <= i < |files| ==> Statuses(files)[i] == files[i].security;
    }
  }

  /** The Arachne counter is the number of non-empty files that reach the threshold. */
  lemma {:induction false} CountLargeExactly(files: seq<HubFile>, threshold: nat)
    ensures CountLarge(files, threshold)
         == |set i | 0 <= i < |files| && files[i].size >= threshold && files[i].size > 0|
    decreases |files|
  {
    var all := set i | 0 <= i < |files| && files[i].size >= threshold && files[i].size > 0;
    if files == [] {
      assert all == {};
    } else {
      var n, init := |files| - 1, files[..|files| - 1];
      CountLargeExactly(init, threshold);
      var before := set i | 0 <= i < |init| && init[i].size >= threshold && init[i].size > 0;
      assert all == if Large(files[n], threshold) then before + {n} else before;
    }
  }

  method CountSecurity(files: seq<HubFile>) returns (counts: map<string, nat>)
    ensures counts == SecurityCounts(files)
    ensures forall k :: k in counts <==> exists i :: 0 <= i < |files| && files[i].security == k
    ensures forall k :: k in counts ==> counts[k] == multiset(Statuses(files))[k]
  {
    SecurityCountsExactly(files);
    counts := map[];
    for i := 0 to |files|
      invariant counts == SecurityCounts(files[..i])
    {
      PrefixStep(files, i, 0);
      var before := if files[i].security in counts then counts[files[i].security] else 0;
      counts := counts[files[i].security := before + 1];
    }
    assert files[..|files|] == files;
  }

  /** The job table as one gateway drives it. */
  class HubStore {
    var jobs: JobTable

    constructor ()
      ensures jobs == map[]
    {
      jobs := map[];
    }

    /** Insert a job with the defaults of the schema; ids are fresh. */
    method CreateJob(id: JobId, decodes: bool) returns (created: bool)
      modifies this
      ensures created <==> id !in old(jobs)
      ensures jobs == if created then old(jobs)[id := NewJob(decodes)] else old(jobs)
      ensures created ==>
                jobs[id] == HubJob(decodes, Queued, 0, 0, 0, 0, 0, map[], "", "", "", None, None, None, None)
    {
      created := id !in jobs;
      if created {
        jobs := jobs[id := HubJob(decodes, Queued, 0, 0, 0, 0, 0, map[], "", "", "", None, None, None, None)];
      }
    }

    method ClaimJob(id: JobId, w: WorkerId, now: int) returns (claimed: bool)
      modifies this
      ensures claimed <==> id in old(jobs) && Claimable(old(jobs)[id], now)
      ensures jobs == if claimed then old(jobs)[id := Claimed(old(jobs)[id], w, now)] else old(jobs)
      ensures claimed
              <==> id in old(jobs)
                   && (old(jobs)[id].status == Queued
                       || (old(jobs)[id].status == Running
                           && (old(jobs)[id].leaseExpiresAt == None || old(jobs)[id].leaseExpiresAt.value < now)))
      ensures claimed ==>
                var j := old(jobs)[id];
                var again := j.status == Running;
                jobs[id] == HubJob(
                  j.decodes, Running, j.filesTotal, if again then 0 else j.filesImported, j.logicalBytes,
                  if again then 0 else j.bytesImported, if again then 0 else j.arachneFiles, j.securityCounts,
                  j.commitId, j.operationId, "", if j.startedAt == None then Some(now) else j.startedAt, None,
                  Some(w), Some(now + 30))
    {
      claimed := false;
      if id in jobs && Claimable(jobs[id], now) {
        var job := jobs[id];
        if job.status == Running {
          job := job.(filesImported := 0, bytesImported := 0, arachneFiles := 0);
        }
        if job.startedAt == None {
          job := job.(startedAt := Some(now));
        }
        job := job.(status := Running, lockedBy := Some(w), leaseExpiresAt := Some(now + 30));
        job := job.(completedAt := None, error := "");
        jobs := jobs[id := job];
        claimed := true;
      }
    }

    /** The guarded progress update and the lease check that follows it. */
    method ReportProgress(id: JobId, w: WorkerId, bytes: nat, arachne: nat) returns (ok: bool)
      modifies this
      ensures ok <==> id in old(jobs) && HeldBy(old(jobs)[id], w)
      ensures jobs == if ok then old(jobs)[id := Progressed(old(jobs)[id], bytes, arachne)] else old(jobs)
      ensures ok <==> id in old(jobs) && old(jobs)[id].lockedBy == Some(w)
      ensures ok ==> jobs == old(jobs)[id := old(jobs)[id].(
                       filesImported := old(jobs)[id].filesImported + 1, bytesImported := bytes,
                       arachneFiles := arachne)]
    {
      ok := id in jobs && jobs[id].lockedBy == Some(w);
      if ok {
        var job := jobs[id];
        job := job.(filesImported := job.filesImported + 1);
        job := job.(bytesImported := bytes, arachneFiles := arachne);
        jobs := jobs[id := job];
      }
    }

    /** Download, route and count every file in order, reporting progress under the lease after each.
        `downloads[i]` says whether the i-th transfer succeeds.  A worker without the lease stops at its
        first report and changes nothing. */
    method ImportFiles(id: JobId, w: WorkerId, files: seq<HubFile>, threshold: nat, downloads: seq<bool>)
      returns (r: Result<nat, string>, done: nat)
      requires |downloads| == |files| && TotalSize(files) <= U64_MAX
      modifies this
      ensures done <= |files| && forall i :: 0 <= i < done ==> downloads[i]
      ensures r.Ok? ==> done == |files| && r.value == CountLarge(files, threshold)
      ensures id in old(jobs) && HeldBy(old(jobs)[id], w) ==>
                && jobs == old(jobs)[id := Reported(old(jobs)[id], files, done, threshold)]
                && (r.Err? ==> done < |files| && !downloads[done])
      ensures !(id in old(jobs) && HeldBy(old(jobs)[id], w)) ==>
                jobs == old(jobs) && done == 0 && (r.Ok? <==> files == [])
    {
      hide TotalSize, CountLarge, Reported, Progressed;
      ghost var held := id in jobs && HeldBy(jobs[id], w);
      EmptyImport(threshold);
      if held {
        NothingReported(jobs[id], files, threshold);
      }
      done := 0;
      var bytes, arachne := 0, 0;
      while done < |files|
        invariant done <= |files|
        invariant bytes == TotalSize(files[..done]) && arachne == CountLarge(files[..done], threshold)
        invariant forall i :: 0 <= i < done ==> downloads[i]
        invariant held ==> jobs == old(jobs)[id := Reported(old(jobs)[id], files, done, threshold)]
        invariant !held ==> jobs == old(jobs) && done == 0
      {
        if !downloads[done] {
          return Err("Hub file download"), done;
        }
        PrefixStep(files, done, threshold);
        PrefixBounds(files, done + 1, threshold);
        if held {
          OneMoreReport(old(jobs)[id], files, done, threshold);
        }
        if files[done].size >= threshold && files[done].size > 0 {
          arachne := arachne + 1;
        }
        bytes := SaturatingAdd(bytes, files[done].size);
        var ok := ReportProgress(id, w, bytes, arachne);
        if !ok {
          return Err("Hub import lease moved to another gateway"), done;
        }
        done := done + 1;
      }
      assert files[..done] == files;
      r := Ok(arachne);
    }

    /** Preflight check, preflight update, then the files. */
    method PerformImport(id: JobId, w: WorkerId, files: seq<HubFile>, limits: Limits, threshold: nat,
                         downloads: seq<bool>)
      returns (r: Result<nat, string>, done: nat)
      requires |downloads| == |files|
      modifies this
      ensures done <= |files|
      ensures CheckImport(files, limits).Err? || !(id in old(jobs) && HeldBy(old(jobs)[id], w))
              ==> r.Err? && jobs == old(jobs) && done == 0
      ensures CheckImport(files, limits).Ok? && id in old(jobs) && HeldBy(old(jobs)[id], w) ==>
                && jobs == old(jobs)[id :=
                     Reported(Preflighted(old(jobs)[id], files, TotalSize(files)), files, done, threshold)]
                && (forall i :: 0 <= i < done ==> downloads[i])
                && (r.Ok? ==> done == |files| && r.value == CountLarge(files, threshold))
                && (r.Err? ==> done < |files| && !downloads[done])
      ensures CheckImport(files, limits).Ok? && id in old(jobs) && HeldBy(old(jobs)[id], w) ==>
                var before, row := old(jobs)[id], jobs[id];
                && row.filesTotal == |files| && row.logicalBytes == TotalSize(files)
                && row.filesImported == before.filesImported + done
                && (done > 0 ==> row.bytesImported == TotalSize(files[..done])
                                 && row.arachneFiles == CountLarge(files[..done], threshold))
                && (forall k :: k in row.securityCounts <==> exists i :: 0 <= i < |files| && files[i].security == k)
                && (forall k :: k in row.securityCounts ==> row.securityCounts[k] == multiset(Statuses(files))[k])
    {
      SecurityCountsExactly(files);
      hide SecurityCounts, Statuses, TotalSize, CountLarge, CheckImport;
      var accepted := CheckImport(files, limits);
      AcceptedImport(files, limits);
      if accepted.Err? {
        return Err(accepted.error), 0;
      }
      var counts := CountSecurity(files);
      if id !in jobs || jobs[id].lockedBy != Some(w) {
        return Err("Hub import lease moved to another gateway"), 0;
      }
      jobs := jobs[id := jobs[id].(filesTotal := |files|, logicalBytes := accepted.value, securityCounts := counts)];
      r, done := ImportFiles(id, w, files, threshold, downloads);
    }
  }

  lemma {:induction false} NothingReported(job: HubJob, files: seq<HubFile>, threshold: nat)
    ensures Reported(job, files, 0, threshold) == job
  {
  }

  lemma {:induction false} OneMoreReport(job: HubJob, files: seq<HubFile>, done: nat, threshold: nat)
    requires done < |files|
    ensures Reported(job, files, done, threshold).lockedBy == job.lockedBy
    ensures Reported(job, files, done + 1, threshold)
         == Progressed(Reported(job, files, done, threshold), TotalSize(files[..done + 1]),
                       CountLarge(files[..done + 1], threshold))
  {
    hide TotalSize, CountLarge;
  }

  /** The row after `done` progress reports of one import. */
  function Reported(job: HubJob, files: seq<HubFile>, done: nat, threshold: nat): HubJob
    requires done <= |files|
  {
    job.(filesImported := job.filesImported + done,
         bytesImported := if done == 0 then job.bytesImported else TotalSize(files[..done]),
         arachneFiles := if done == 0 then job.arachneFiles else CountLarge(files[..done], threshold))
  }
}
