/** Any number of push handlers on any number of gateways.  A handler reserves its delivery in one transaction,
    later cleans up in another, and then answers, which may start CI; the steps of different handlers
    interleave freely, and a handler that stops is one that takes no further step. */
module WebhookProtocol {
  import opened Behaviours
  import opened TtlTable
  import opened Webhooks

  datatype Phase = Reserved | Cleaned | Done

  /** One request: the clock of its reservation, what it offered, and what the reservation answered. */
  datatype Handler = Handler(at: int, hash: string, offered: Delivery, answer: Answer<Delivery>, phase: Phase)

  /** `starts` lists the handlers that have started CI, in that order. */
  datatype System = System(deliveries: DeliveryTable, now: int, handlers: map<nat, Handler>, starts: seq<nat>)

  /** `CleanUp` removes any of the named rows that have expired; a cleanup that fails names none. */
  datatype Step =
    | Reserve(h: nat, hash: string, offered: Delivery)
    | CleanUp(h: nat, keys: set<string>)
    | Respond(h: nat)
    | Tick(seconds: nat)

  const INITIAL: System := System(map[], 0, map[], [])

  predicate StartsCi(handler: Handler) { AckFor(handler.answer, handler.offered).StartedCi? }

  function DoReserve(s: System, h: nat, hash: string, offered: Delivery): System {
    if h in s.handlers then s
    else
      var (table, answer) := ReserveTx(s.deliveries, s.now, RETENTION_SECONDS, hash, offered, SameDelivery);
      var phase := if answer.Conflict? then Done else Reserved;
      s.(deliveries := table, handlers := s.handlers[h := Handler(s.now, hash, offered, answer, phase)])
  }

  function Apply(s: System, step: Step): System {
    match step
    case Reserve(h, hash, offered) => DoReserve(s, h, hash, offered)
    case CleanUp(h, keys) =>
      if h in s.handlers && s.handlers[h].phase.Reserved?
      then s.(deliveries := s.deliveries - (keys * ExpiredKeys(s.deliveries, s.now)),
              handlers := s.handlers[h := s.handlers[h].(phase := Cleaned)])
      else s
    case Respond(h) =>
      if h in s.handlers && s.handlers[h].phase.Cleaned?
      then s.(handlers := s.handlers[h := s.handlers[h].(phase := Done)],
              starts := if StartsCi(s.handlers[h]) then s.starts + [h] else s.starts)
      else s
    case Tick(seconds) => s.(now := s.now + seconds)
  }

  function Exec(steps: seq<Step>): System { Run(Apply, INITIAL, steps) }

  // ---------------------------------------------------------------- the inductive invariant

  predicate Apart(a: Handler, b: Handler) {
    a.at + RETENTION_SECONDS <= b.at || b.at + RETENTION_SECONDS <= a.at
  }

  /** A delivery stored afresh has its row until its window is over. */
  predicate Backed(deliveries: DeliveryTable, now: int, handler: Handler) {
    && handler.at <= now
    && (handler.answer.Fresh? && now < handler.at + RETENTION_SECONDS ==>
          handler.hash in deliveries
          && deliveries[handler.hash] == Entry(handler.offered, handler.at + RETENTION_SECONDS))
  }

  ghost predicate Inv(s: System) {
    && (forall h :: h in s.handlers ==> Backed(s.deliveries, s.now, s.handlers[h]))
    && (forall g, h :: g in s.handlers && h in s.handlers && g != h && s.handlers[g].hash == s.handlers[h].hash
                       && s.handlers[g].answer.Fresh? && s.handlers[h].answer.Fresh?
                       ==> Apart(s.handlers[g], s.handlers[h]))
    && (forall i, j :: 0 <= i < j < |s.starts| ==> s.starts[i] != s.starts[j])
    && (forall h :: h in s.starts <==> h in s.handlers && s.handlers[h].phase.Done? && StartsCi(s.handlers[h]))
  }

  lemma {:induction false} ReserveBacks(s: System, handler: Handler, hash: string, offered: Delivery)
    requires Backed(s.deliveries, s.now, handler)
    ensures var (table, answer) := ReserveTx(s.deliveries, s.now, RETENTION_SECONDS, hash, offered, SameDelivery);
            && Backed(table, s.now, handler)
            && (answer.Fresh? && handler.answer.Fresh? && handler.hash == hash
                ==> handler.at + RETENTION_SECONDS <= s.now)
            && !answer.Miss?
            && (answer.Fresh? ==> hash in table && table[hash] == Entry(offered, s.now + RETENTION_SECONDS))
  {
    OnlyFreshWrites(s.deliveries, s.now, RETENTION_SECONDS, hash, offered, SameDelivery);
  }

  lemma {:induction false} ReserveKeepsInv(s: System, h: nat, hash: string, offered: Delivery)
    requires Inv(s) && h !in s.handlers
    ensures Inv(DoReserve(s, h, hash, offered))
  {
    OnlyFreshWrites(s.deliveries, s.now, RETENTION_SECONDS, hash, offered, SameDelivery);
    var s' := DoReserve(s, h, hash, offered);
    forall g | g in s.handlers
      ensures Backed(s'.deliveries, s'.now, s.handlers[g])
      ensures s'.handlers[h].answer.Fresh? && s.handlers[g].answer.Fresh? && s.handlers[g].hash == hash
              ==> Apart(s.handlers[g], s'.handlers[h])
    {
      ReserveBacks(s, s.handlers[g], hash, offered);
    }
    assert Backed(s'.deliveries, s'.now, s'.handlers[h]);
    hide ReserveTx, Backed;
  }

  lemma {:induction false} CleanUpBacks(s: System, handler: Handler, keys: set<string>)
    requires Backed(s.deliveries, s.now, handler)
    ensures Backed(s.deliveries - (keys * ExpiredKeys(s.deliveries, s.now)), s.now, handler)
  {
  }

  lemma {:induction false} StepKeepsInv(s: System, step: Step)
    requires Inv(s)
    ensures Inv(Apply(s, step))
  {
    match step
    case Reserve(h, hash, offered) => if h !in s.handlers { ReserveKeepsInv(s, h, hash, offered); }
    case CleanUp(h, keys) =>
      forall g | g in s.handlers
        ensures Backed(s.deliveries - (keys * ExpiredKeys(s.deliveries, s.now)), s.now, s.handlers[g])
      {
        CleanUpBacks(s, s.handlers[g], keys);
      }
    case Respond(h) =>
    case Tick(seconds) =>
  }

  lemma {:induction false} RunKeepsInv(s: System, steps: seq<Step>)
    requires Inv(s)
    ensures Inv(Run(Apply, s, steps))
    decreases |steps|
  {
    hide Apply, Inv;
    if steps != [] {
      StepKeepsInv(s, steps[0]);
      RunKeepsInv(Apply(s, steps[0]), steps[1..]);
    }
  }

  // ---------------------------------------------------------------- CI starts

  /** In every interleaving of reservations, cleanups, answers and clock ticks of any handlers, two CI starts for
      one delivery hash come from reservations a full retention window apart, in whichever order CI started. */
  lemma {:induction false} CiStartsAreAWindowApart(steps: seq<Step>, i: nat, j: nat)
    ensures var s := Exec(steps);
            i < |s.starts| && j < |s.starts| && i != j ==>
              && s.starts[i] in s.handlers && s.starts[j] in s.handlers
              && var a, b := s.handlers[s.starts[i]], s.handlers[s.starts[j]];
                 a.hash == b.hash ==> a.at + 86_400 <= b.at || b.at + 86_400 <= a.at
  {
    RunKeepsInv(INITIAL, steps);
    var s := Exec(steps);
    assert forall n :: 0 <= n < |s.starts| ==> s.starts[n] in s.starts;
    hide Run;
  }

  /** A handler that ran to its end started CI exactly once if its delivery was new and no branch deletion, and
      never otherwise. */
  lemma {:induction false} StartsExactlyForNewPushes(steps: seq<Step>, h: nat)
    ensures var s := Exec(steps);
            && (h in s.starts
                <==> && h in s.handlers && s.handlers[h].phase.Done? && s.handlers[h].answer.Fresh?
                     && var sha := s.handlers[h].offered.commitSha;
                        exists n :: 0 <= n < |sha| && sha[n] != '0')
            && (forall i, j :: 0 <= i < j < |s.starts| ==> s.starts[i] != s.starts[j])
  {
    RunKeepsInv(INITIAL, steps);
  }

  // ---------------------------------------------------------------- one handler undisturbed

  lemma {:induction false} FourSteps(s: System, a: Step, b: Step, c: Step, d: Step)
    ensures Run(Apply, s, [a] + ([b] + ([c] + ([d] + [])))) == Apply(Apply(Apply(Apply(s, a), b), c), d)
  {
    hide Apply;
    RunCons(Apply, s, a, [b] + ([c] + ([d] + [])));
    RunCons(Apply, Apply(s, a), b, [c] + ([d] + []));
    RunCons(Apply, Apply(Apply(s, a), b), c, [d] + []);
    RunCons(Apply, Apply(Apply(Apply(s, a), b), c), d, []);
  }

  /** What the whole handler does when nobody interferes is one behaviour of its steps. */
  lemma {:induction false} AdmitIsItsSteps(s: System, h: nat, push: Push, before: Hook, after: Hook, ack: Ack)
    returns (steps: seq<Step>)
    requires Admits(before, push, after, ack) && before.deliveries == s.deliveries
    requires h !in s.handlers && push.now == s.now && push.now <= push.cleanupAt
    ensures var s' := Run(Apply, s, steps);
            && s'.deliveries == after.deliveries && s'.now == push.cleanupAt && h in s'.handlers
            && ack == AckFor(s'.handlers[h].answer, push.offered)
            && s'.starts == (if ack.StartedCi? then s.starts + [h] else s.starts)
            && s'.handlers[h].at == push.now && s'.handlers[h].phase.Done?
  {
    var (table, answer) := Reservation(before, push);
    OnlyFreshWrites(s.deliveries, s.now, RETENTION_SECONDS, push.hash, push.offered, SameDelivery);
    var keys: set<string> := {};
    if !ack.Refused? && after.deliveries != table {
      keys :| LegalBatch(table, push.cleanupAt, CLEANUP_BATCH_SIZE, keys) && after.deliveries == table - keys;
      assert keys * ExpiredKeys(table, push.cleanupAt) == keys;
    } else {
      assert table - {} == table;
    }
    hide ReserveTx, LegalBatch;
    var reserve, tick := Step.Reserve(h, push.hash, push.offered), Tick(push.cleanupAt - push.now);
    steps := [reserve] + ([tick] + ([CleanUp(h, keys)] + ([Respond(h)] + [])));
    FourSteps(s, reserve, tick, CleanUp(h, keys), Respond(h));
    var reserved := Apply(s, reserve);
    assert reserved.deliveries == table && reserved.handlers[h].answer == answer;
    var ticked := Apply(reserved, tick);
    var cleaned := Apply(ticked, CleanUp(h, keys));
    assert cleaned.deliveries == after.deliveries;
    hide Run;
  }
}
