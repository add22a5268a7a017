/** The recovery scan on the Action-run protocol: in every interleaving without crashes, how soon an eligible
    run is claimed.

    A round starts with the rows one scan returned; its steps are any steps of any workers, handlers and the
    clock, among them a claim attempt by a fresh worker for every returned row. */
module ScanFairness {
  import opened Prelude
  import opened ActionRuns
  import opened Behaviours
  import opened RunProtocol
  import opened RunTheorems
  import opened Recovery

  function Rows(s: System): RunTable { map id | id in s.runs :: s.runs[id].row }

  function RivalsAt(s: System, bound: int): set<RunId> { Rivals(Rows(s), s.now, bound) }

  predicate Waiting(s: System, id: RunId) { id in s.runs && Claimable(s.runs[id].row, s.now) }

  /** Nobody crashes, new runs are younger than `bound`, and no time passes in which a held lease lapses. */
  ghost predicate CalmStep(s: System, step: Step, bound: int) {
    && !step.Crash?
    && (step.CreateRun? ==> step.millis > bound)
    && (step.CreatePushRun? ==> step.millis > bound)
    && (step.Tick? ==> forall id :: id in s.runs && !Claimable(s.runs[id].row, s.now)
                                    ==> !Claimable(s.runs[id].row, s.now + step.seconds))
  }

  ghost predicate Calm(s: System, steps: seq<Step>, bound: int)
    decreases |steps|
  {
    steps == [] || (CalmStep(s, steps[0], bound) && Calm(Apply(s, steps[0]), steps[1..], bound))
  }

  /** Some step is a claim attempt on `id` by a worker not seen before. */
  predicate Dispatched(s: System, steps: seq<Step>, id: RunId)
    decreases |steps|
  {
    steps != []
    && ((steps[0].Claim? && steps[0].id == id && steps[0].w !in s.workers)
        || Dispatched(Apply(s, steps[0]), steps[1..], id))
  }

  datatype Round = Round(rows: seq<RunId>, steps: seq<Step>)

  ghost predicate CalmRound(s: System, round: Round, bound: int) {
    && LegalScan(Rows(s), s.now, round.rows)
    && Calm(s, round.steps, bound)
    && forall id :: id in round.rows ==> Dispatched(s, round.steps, id)
  }

  ghost predicate CalmRounds(s: System, rounds: seq<Round>, bound: int)
    decreases |rounds|
  {
    rounds == []
    || (CalmRound(s, rounds[0], bound) && CalmRounds(Exec(s, rounds[0].steps), rounds[1..], bound))
  }

  function AfterRounds(s: System, rounds: seq<Round>): System
    decreases |rounds|
  {
    if rounds == [] then s else AfterRounds(Exec(s, rounds[0].steps), rounds[1..])
  }

  // ---------------------------------------------------------------- one step

  lemma {:induction false} OwnStepAddsNoRival(rec: RunRecord, w: WorkerId, worker: Worker, now: int, step: Step)
    requires RecordOk(rec) && Agree(rec, w, worker, now)
    ensures var rec' := WorkerStep(rec, w, worker, now, step).0;
            Claimable(rec'.row, now) ==> rec'.row == rec.row
  {
  }

  lemma {:induction false} StepOnClock(s: System, step: Step)
    ensures Apply(s, step).now == if step.Tick? then s.now + step.seconds else s.now
  {
    hide WorkerStep, ClaimRecord, Claimable, PlanRun, BuildRun;
  }

  lemma {:induction false} NewRun(s: System, step: Step, id: RunId)
    requires id !in s.runs && id in Apply(s, step).runs
    requires forall w :: w in s.workers ==> s.workers[w].run in s.runs
    ensures (step.CreateRun? || step.CreatePushRun?) && Apply(s, step).runs[id].row.createdAtMillis == step.millis
  {
    hide WorkerStep, ClaimRecord, Claimable, PlanRun;
  }

  lemma {:induction false} ClaimEndsWaiting(s: System, w: WorkerId, id: RunId, millis: int)
    requires w !in s.workers && id in s.runs
    ensures !Waiting(Apply(s, Claim(w, id, millis)), id)
  {
  }

  /** A calm step brings no rival into the race. */
  lemma {:induction false} StepAddsNoRival(s: System, step: Step, bound: int, id: RunId)
    requires Inv(s) && CalmStep(s, step, bound) && id in RivalsAt(Apply(s, step), bound)
    ensures id in RivalsAt(s, bound)
  {
    if id in s.runs {
      KnownRunStaysOut(s, step, bound, id);
    } else {
      NewRun(s, step, id);
    }
  }

  lemma {:induction false} KnownRunStaysOut(s: System, step: Step, bound: int, id: RunId)
    requires Inv(s) && CalmStep(s, step, bound) && id in s.runs && id in RivalsAt(Apply(s, step), bound)
    ensures id in RivalsAt(s, bound)
  {
    hide Apply, WorkerStep, ClaimRecord, RecordOk, Agree, Pinned, Claimable;
    StepOnClock(s, step);
    StepOnRun(s, step, id);
    StepExtends(s, step, id);
    var rec, rec' := s.runs[id], Apply(s, step).runs[id];
    if step.Claim? && step.id == id && step.w !in s.workers {
      ClaimEndsWaiting(s, step.w, id, step.millis);
    }
    if ByWorker(step) && step.w in s.workers && s.workers[step.w].run == id {
      OwnStepAddsNoRival(rec, step.w, s.workers[step.w], s.now, step);
    }
    assert step.Tick? ==> rec' == rec;
  }

  lemma {:induction false} CalmAddsNoRival(s: System, steps: seq<Step>, bound: int)
    requires Inv(s) && Calm(s, steps, bound)
    ensures Inv(Exec(s, steps)) && RivalsAt(Exec(s, steps), bound) <= RivalsAt(s, bound)
    decreases |steps|
  {
    hide Inv, Apply, CalmStep, RivalsAt;
    if steps != [] {
      StepKeepsInv(s, steps[0]);
      forall id | id in RivalsAt(Apply(s, steps[0]), bound) ensures id in RivalsAt(s, bound) {
        StepAddsNoRival(s, steps[0], bound, id);
      }
      CalmAddsNoRival(Apply(s, steps[0]), steps[1..], bound);
    }
  }

  /** A dispatched run is out of the race when its round is over. */
  lemma {:induction false} DispatchTakes(s: System, steps: seq<Step>, id: RunId, bound: int)
    requires Inv(s) && Calm(s, steps, bound) && id in s.runs && Dispatched(s, steps, id)
    ensures id !in RivalsAt(Exec(s, steps), bound)
    decreases |steps|
  {
    hide Inv, Apply, CalmStep;
    var step, next := steps[0], Apply(s, steps[0]);
    StepKeepsInv(s, step);
    StepOnRun(s, step, id);
    if step.Claim? && step.id == id && step.w !in s.workers {
      ClaimEndsWaiting(s, step.w, id, step.millis);
      CalmAddsNoRival(next, steps[1..], bound);
    } else {
      DispatchTakes(next, steps[1..], id, bound);
    }
  }

  // ---------------------------------------------------------------- orphaned runs

  /** Never claimed, or last claimed by a worker that has crashed. */
  predicate Orphaned(s: System, id: RunId)
    requires id in s.runs
  {
    var claims := s.runs[id].claims;
    claims == []
    || (claims[|claims| - 1] in s.workers && s.workers[claims[|claims| - 1]].phase.Crashed?)
  }

  predicate ClaimedSince(s: System, s': System, id: RunId)
    requires id in s.runs
  {
    id in s'.runs && |s.runs[id].claims| < |s'.runs[id].claims|
  }

  lemma {:induction false} NobodyElseActs(rec: RunRecord, w: WorkerId, worker: Worker, now: int, step: Step)
    requires RecordOk(rec) && Agree(rec, w, worker, now) && Claimable(rec.row, now)
    requires rec.claims != [] && w == rec.claims[|rec.claims| - 1] ==> worker.phase.Crashed?
    ensures WorkerStep(rec, w, worker, now, step).0 == rec
  {
  }

  lemma {:induction false} CrashIsForGood(rec: RunRecord, w: WorkerId, worker: Worker, now: int, step: Step)
    requires worker.phase.Crashed?
    ensures WorkerStep(rec, w, worker, now, step) == (rec, worker)
  {
  }

  lemma {:induction false} ClaimGrows(rec: RunRecord, w: WorkerId, now: int, millis: int)
    ensures |ClaimRecord(rec, w, now, millis).claims| == |rec.claims| + 1
  {
  }

  /** Only a claim changes an orphaned run that waits. */
  lemma {:induction false} OrphanIsLeftAlone(s: System, step: Step, id: RunId)
    requires Inv(s) && Waiting(s, id) && Orphaned(s, id)
    ensures id in Apply(s, step).runs
    ensures Apply(s, step).runs[id] == s.runs[id] || ClaimedSince(s, Apply(s, step), id)
  {
    hide Apply, WorkerStep, ClaimRecord, RecordOk, Agree, Pinned;
    var rec := s.runs[id];
    StepOnRun(s, step, id);
    if step.Claim? {
      ClaimGrows(rec, step.w, s.now, step.millis);
    } else if ByWorker(step) && step.w in s.workers && s.workers[step.w].run == id {
      NobodyElseActs(rec, step.w, s.workers[step.w], s.now, step);
    }
  }

  lemma {:induction false} OrphanStaysOrphaned(s: System, step: Step, id: RunId)
    requires Inv(s) && id in s.runs && Orphaned(s, id)
    requires id in Apply(s, step).runs && Apply(s, step).runs[id] == s.runs[id]
    ensures Orphaned(Apply(s, step), id)
  {
    hide Apply, WorkerStep, RecordOk, Agree, Pinned;
    var claims := s.runs[id].claims;
    if claims != [] {
      var last := claims[|claims| - 1];
      StepOnWorker(s, step, last);
      CrashIsForGood(s.runs[s.workers[last].run], last, s.workers[last], s.now, step);
    }
  }

  /** An orphaned run waits, whatever anybody does, until it is claimed. */
  lemma {:induction false} OrphanWaits(s: System, step: Step, id: RunId)
    requires Inv(s) && Waiting(s, id) && Orphaned(s, id)
    ensures var s' := Apply(s, step);
            ClaimedSince(s, s', id)
            || (Waiting(s', id) && s'.runs[id].claims == s.runs[id].claims && Orphaned(s', id))
  {
    hide Apply, Inv, Orphaned;
    StepOnClock(s, step);
    OrphanIsLeftAlone(s, step, id);
    if !ClaimedSince(s, Apply(s, step), id) {
      OrphanStaysOrphaned(s, step, id);
    }
  }

  lemma {:induction false} OrphanWaitsLong(s: System, steps: seq<Step>, id: RunId)
    requires Inv(s) && Waiting(s, id) && Orphaned(s, id)
    ensures var s' := Exec(s, steps);
            ClaimedSince(s, s', id)
            || (Waiting(s', id) && s'.runs[id].claims == s.runs[id].claims && Orphaned(s', id))
    decreases |steps|
  {
    assert id in s.runs;
    hide Inv, Apply, Waiting, Orphaned;
    if steps != [] {
      var next := Apply(s, steps[0]);
      StepKeepsInv(s, steps[0]);
      StepOnRun(s, steps[0], id);
      OrphanWaits(s, steps[0], id);
      if ClaimedSince(s, next, id) {
        ExecExtends(next, steps[1..], id);
        hide Exec;
      } else {
        OrphanWaitsLong(next, steps[1..], id);
      }
    }
  }

  // ---------------------------------------------------------------- fairness

  /** One calm round takes exactly the returned rows, at least, out of the race. */
  lemma {:induction false} RoundTakesItsRows(s: System, round: Round, bound: int)
    requires Inv(s) && CalmRound(s, round, bound)
    ensures Inv(Exec(s, round.steps))
    ensures RivalsAt(Exec(s, round.steps), bound) <= RivalsAt(s, bound) - set x | x in round.rows
  {
    hide Inv, Calm, Dispatched, Exec;
    CalmAddsNoRival(s, round.steps, bound);
    forall id | id in RivalsAt(Exec(s, round.steps), bound) ensures id !in round.rows {
      if id in round.rows {
        assert id in Eligible(Rows(s), s.now);
        DispatchTakes(s, round.steps, id, bound);
      }
    }
  }

  /** A waiting run that the scan passes over has fifty rivals fewer in the next round. */
  lemma {:induction false} PassedOverGains(s: System, round: Round, id: RunId)
    requires Inv(s) && Waiting(s, id)
    requires var bound := s.runs[id].row.createdAtMillis;
             CalmRound(s, round, bound) && id in RivalsAt(Exec(s, round.steps), bound)
    ensures var bound := s.runs[id].row.createdAtMillis;
            |RivalsAt(Exec(s, round.steps), bound) - {id}| + SCAN_LIMIT <= |RivalsAt(s, bound) - {id}|
  {
    var bound := s.runs[id].row.createdAtMillis;
    RoundTakesItsRows(s, round, bound);
    PassedOver(Rows(s), s.now, round.rows, id);
    var taken := set x | x in round.rows;
    hide Inv, CalmRound, Exec;
    var rivals, after := RivalsAt(s, bound) - {id}, RivalsAt(Exec(s, round.steps), bound) - {id};
    SubsetSize(after, rivals - taken);
    assert |rivals - taken| == |rivals| - |taken|;
  }

  lemma {:induction false} RoundsEndWaiting(s: System, rounds: seq<Round>, id: RunId)
    requires Inv(s) && id in s.runs
    requires CalmRounds(s, rounds, s.runs[id].row.createdAtMillis)
    requires Waiting(s, id)
             ==> |rounds| > |RivalsAt(s, s.runs[id].row.createdAtMillis) - {id}| / SCAN_LIMIT
    ensures id in AfterRounds(s, rounds).runs && !Waiting(AfterRounds(s, rounds), id)
    decreases |rounds|
  {
    hide Inv, CalmRound, Exec;
    if rounds != [] {
      var bound, next := s.runs[id].row.createdAtMillis, Exec(s, rounds[0].steps);
      RoundTakesItsRows(s, rounds[0], bound);
      ExecExtends(s, rounds[0].steps, id);
      if Waiting(next, id) {
        assert id in RivalsAt(next, bound) && id in RivalsAt(s, bound);
        PassedOverGains(s, rounds[0], id);
      }
      RoundsEndWaiting(next, rounds[1..], id);
    }
  }

  function StepsOf(rounds: seq<Round>): seq<Step> {
    if rounds == [] then [] else rounds[0].steps + StepsOf(rounds[1..])
  }

  lemma {:induction false} RoundsAreSteps(s: System, rounds: seq<Round>)
    ensures AfterRounds(s, rounds) == Exec(s, StepsOf(rounds))
    decreases |rounds|
  {
    if rounds != [] {
      RoundsAreSteps(Exec(s, rounds[0].steps), rounds[1..]);
      RunSplits(Apply, s, rounds[0].steps, StepsOf(rounds[1..]));
      hide Apply;
    }
  }

  /** From every reachable state, in every interleaving without crashes, an eligible run with `r` eligible
      rivals at least as old no longer waits after `r / 50 + 1` rounds; and if it was never claimed or its last
      claimer has crashed, that is because it has been claimed. */
  lemma {:induction false} ScanIsFair(m: Manifests, past: seq<Step>, rounds: seq<Round>, id: RunId)
    requires var s := Exec(Init(m), past);
             && Waiting(s, id)
             && CalmRounds(s, rounds, s.runs[id].row.createdAtMillis)
             && |rounds| > |RivalsAt(s, s.runs[id].row.createdAtMillis) - {id}| / 50
    ensures var s := Exec(Init(m), past);
            var s' := AfterRounds(s, rounds);
            && id in s'.runs && !Waiting(s', id)
            && (Orphaned(s, id) ==> ClaimedSince(s, s', id))
  {
    var s := Exec(Init(m), past);
    ReachableInv(m, past);
    assert id in s.runs;
    hide Inv, Exec, CalmRounds, RivalsAt, Orphaned, Waiting;
    RoundsEndWaiting(s, rounds, id);
    if Orphaned(s, id) {
      RoundsAreSteps(s, rounds);
      OrphanWaitsLong(s, StepsOf(rounds), id);
    }
  }

  // ---------------------------------------------------------------- a live holder may keep its run

  lemma {:induction false} LongestName(ws: set<WorkerId>) returns (n: nat)
    ensures forall w :: w in ws ==> |w| <= n
    decreases |ws|
  {
    n := 0;
    if ws != {} {
      var w :| w in ws;
      var rest := LongestName(ws - {w});
      n := if |w| > rest then |w| else rest;
    }
  }

  lemma {:induction false} FreshWorker(ws: set<WorkerId>) returns (w: WorkerId)
    ensures w !in ws
  {
    var n := LongestName(ws);
    w := seq(n + 1, _ => 'w');
  }

  /** `w` is alive and holds `id`. */
  ghost predicate Holds(s: System, id: RunId, w: WorkerId) {
    && Inv(s) && id in s.runs && s.runs[id].row.status.Running? && HeldBy(s.runs[id].row, w)
    && w in s.workers && s.workers[w].run == id && !s.workers[w].phase.Crashed?
  }

  ghost predicate HoldsLease(s: System, id: RunId, w: WorkerId) {
    Holds(s, id, w) && !Claimable(s.runs[id].row, s.now)
  }

  lemma {:induction false} OtherClaimSpares(s: System, id: RunId, w: WorkerId, v: WorkerId, other: RunId)
    requires HoldsLease(s, id, w) && v !in s.workers
    ensures var s' := Apply(s, Claim(v, other, 0));
            HoldsLease(s', id, w) && s'.runs[id].claims == s.runs[id].claims
  {
    var step := Claim(v, other, 0);
    StepKeepsInv(s, step);
    StepOnClock(s, step);
    StepOnRun(s, step, id);
    StepOnWorker(s, step, w);
    hide Inv, Apply, WorkerStep, ClaimRecord;
  }

  lemma {:induction false} StepFirst(s: System, step: Step, steps: seq<Step>, rows: seq<RunId>, bound: int)
    requires CalmStep(s, step, bound) && Calm(Apply(s, step), steps, bound)
    requires forall r :: r in rows ==> Dispatched(Apply(s, step), steps, r)
    ensures Calm(s, [step] + steps, bound) && forall r :: r in rows ==> Dispatched(s, [step] + steps, r)
    ensures Exec(s, [step] + steps) == Exec(Apply(s, step), steps)
  {
    hide Apply, CalmStep;
    assert ([step] + steps)[1..] == steps;
  }

  lemma {:induction false} FirstIsDispatched(s: System, v: WorkerId, id: RunId, rest: seq<Step>)
    requires v !in s.workers
    ensures Dispatched(s, [Claim(v, id, 0)] + rest, id)
  {
  }

  lemma {:induction false} NoSteps(s: System, bound: int)
    ensures Calm(s, [], bound) && Exec(s, []) == s
  {
  }

  lemma {:induction false} ClaimStepIsCalm(s: System, w: WorkerId, id: RunId, millis: int, bound: int)
    ensures CalmStep(s, Claim(w, id, millis), bound)
    ensures CalmStep(s, Renew(w), bound)
  {
  }

  /** Fresh workers can attempt to claim any rows in one calm stretch, and a holder keeps its lease meanwhile. */
  lemma {:induction false} ClaimAttempts(s: System, rows: seq<RunId>, id: RunId, w: WorkerId, bound: int)
    returns (steps: seq<Step>)
    requires Inv(s)
    ensures Calm(s, steps, bound) && forall r :: r in rows ==> Dispatched(s, steps, r)
    ensures Inv(Exec(s, steps))
    ensures HoldsLease(s, id, w) ==>
              HoldsLease(Exec(s, steps), id, w) && Exec(s, steps).runs[id].claims == s.runs[id].claims
    decreases |rows|
  {
    hide HoldsLease, Apply, Exec, Calm, CalmStep, Dispatched, Inv;
    NoSteps(s, bound);
    steps := [];
    if rows != [] {
      var v := FreshWorker(s.workers.Keys);
      var step := Claim(v, rows[0], 0);
      StepKeepsInv(s, step);
      if HoldsLease(s, id, w) {
        OtherClaimSpares(s, id, w, v, rows[0]);
      }
      var rest := ClaimAttempts(Apply(s, step), rows[1..], id, w, bound);
      steps := [step] + rest;
      ClaimStepIsCalm(s, v, rows[0], 0, bound);
      StepFirst(s, step, rest, rows[1..], bound);
      FirstIsDispatched(s, v, rows[0], rest);
      assert rows == [rows[0]] + rows[1..];
    }
  }

  /** Calm rounds, as many as wanted, are possible from every state that keeps the invariant. */
  lemma {:induction false} CalmRoundsExist(s: System, bound: int, n: nat) returns (rounds: seq<Round>)
    requires Inv(s)
    ensures |rounds| == n && CalmRounds(s, rounds, bound)
    decreases n
  {
    rounds := [];
    if n > 0 {
      var rows := ScanExists(Rows(s), s.now);
      var steps := ClaimAttempts(s, rows, "", "", bound);
      var rest := CalmRoundsExist(Exec(s, steps), bound, n - 1);
      rounds := [Round(rows, steps)] + rest;
      hide Exec, Inv, LegalScan, Calm, Dispatched;
      assert rounds[1..] == rest;
    }
  }

  lemma {:induction false} RenewTakesBack(s: System, id: RunId, w: WorkerId)
    requires Holds(s, id, w)
    ensures var s' := Apply(s, Renew(w));
            HoldsLease(s', id, w) && s'.runs[id].claims == s.runs[id].claims
  {
    StepKeepsInv(s, Renew(w));
  }

  lemma {:induction false} RenewedRound(s: System, id: RunId, w: WorkerId, bound: int) returns (round: Round)
    requires Holds(s, id, w)
    ensures CalmRound(s, round, bound)
    ensures Holds(Exec(s, round.steps), id, w) && Exec(s, round.steps).runs[id].claims == s.runs[id].claims
  {
    var rows := ScanExists(Rows(s), s.now);
    RenewTakesBack(s, id, w);
    var next := Apply(s, Renew(w));
    var attempts := ClaimAttempts(next, rows, id, w, bound);
    round := Round(rows, [Renew(w)] + attempts);
    ClaimStepIsCalm(s, w, id, 0, bound);
    StepFirst(s, Renew(w), attempts, rows, bound);
    hide Holds, Apply, LegalScan, Exec, Calm, CalmStep, Dispatched;
  }

  lemma {:induction false} RenewedRounds(s: System, id: RunId, w: WorkerId, bound: int, n: nat)
    returns (rounds: seq<Round>)
    requires Holds(s, id, w)
    ensures |rounds| == n && CalmRounds(s, rounds, bound)
    ensures id in AfterRounds(s, rounds).runs && AfterRounds(s, rounds).runs[id].claims == s.runs[id].claims
    decreases n
  {
    rounds := [];
    if n > 0 {
      var round := RenewedRound(s, id, w, bound);
      var rest := RenewedRounds(Exec(s, round.steps), id, w, bound, n - 1);
      rounds := [round] + rest;
      hide CalmRound, Exec;
      assert rounds[1..] == rest;
    }
  }

  lemma {:induction false} LiveHolder(m: Manifests, past: seq<Step>, id: RunId) returns (w: WorkerId)
    requires var s := Exec(Init(m), past); Waiting(s, id) && !Orphaned(s, id)
    ensures Holds(Exec(Init(m), past), id, w)
  {
    ReachableInv(m, past);
    var s := Exec(Init(m), past);
    assert RecordOk(s.runs[id]);
    w := s.runs[id].claims[|s.runs[id].claims| - 1];
    RunsStayWithWorkers(m, past, id, w);
    hide Exec, Pinned, Agree;
  }

  /** A claimed run whose thirty seconds are over waits while its claimer is still alive. */
  lemma {:induction false} LapsedHolderIsReachable(m: Manifests, id: RunId) returns (past: seq<Step>)
    ensures var s := Exec(Init(m), past);
            Waiting(s, id) && !Orphaned(s, id)
  {
    var create, claim, tick := CreatePushRun(id, "repo", "sha", "provider", 0), Claim("w", id, 0), Tick(31);
    past := [create] + ([claim] + ([tick] + []));
    RunCons(Apply, Init(m), create, [claim] + ([tick] + []));
    var created := Apply(Init(m), create);
    RunCons(Apply, created, claim, [tick] + []);
    var claimed := Apply(created, claim);
    RunCons(Apply, claimed, tick, []);
    assert Exec(Init(m), past) == Apply(claimed, tick);
  }

  /** Fairness promises a claim exactly to orphaned runs: a live holder whose lease has lapsed can renew it
      before any claim and keep the run unclaimed for ever. */
  lemma {:induction false} ClaimedExactlyWhenOrphaned(m: Manifests, past: seq<Step>, id: RunId)
    requires Waiting(Exec(Init(m), past), id)
    ensures var s := Exec(Init(m), past);
            var bound := s.runs[id].row.createdAtMillis;
            (forall rounds :: CalmRounds(s, rounds, bound) && |rounds| > |RivalsAt(s, bound) - {id}| / 50
                              ==> ClaimedSince(s, AfterRounds(s, rounds), id))
            <==> Orphaned(s, id)
  {
    var s := Exec(Init(m), past);
    var bound := s.runs[id].row.createdAtMillis;
    var r := |RivalsAt(s, bound) - {id}| / 50;
    if Orphaned(s, id) {
      forall rounds | CalmRounds(s, rounds, bound) && |rounds| > r
        ensures ClaimedSince(s, AfterRounds(s, rounds), id)
      {
        ScanIsFair(m, past, rounds, id);
      }
    } else {
      var w := LiveHolder(m, past, id);
      var rounds := RenewedRounds(s, id, w, bound, r + 1);
      hide Exec;
      assert CalmRounds(s, rounds, bound) && |rounds| > r && !ClaimedSince(s, AfterRounds(s, rounds), id);
    }
  }
}
