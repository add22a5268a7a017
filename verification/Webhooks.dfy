/** Replay admission of signed push deliveries: reserve, opportunistic cleanup, then at most one CI start. */
module Webhooks {
  import opened Prelude
  import opened TtlTable

  const RETENTION_SECONDS: nat := 24 * 60 * 60
  const CLEANUP_BATCH_SIZE: nat := 1_000

  /** The five stored fields a replay has to repeat. */
  datatype Delivery = Delivery(payloadHash: string, orgId: string, repoId: string, eventType: string, commitSha: string)

  type DeliveryTable = Table<string, Delivery>

  predicate SameDelivery(stored: Delivery, offered: Delivery) {
    stored == offered
  }

  const DELIVERY_RULES: Rules<Delivery> := Rules(RETENTION_SECONDS, SameDelivery)

  datatype Ack = Replayed | IgnoredDeletion | StartedCi | Refused

  /** A branch deletion is announced by an all-zero commit. */
  predicate IsDeletion(sha: string) {
    forall i :: 0 <= i < |sha| ==> sha[i] == '0'
  }

  function AckFor(answer: Answer<Delivery>, offered: Delivery): Ack {
    match answer
    case Fresh => if IsDeletion(offered.commitSha) then IgnoredDeletion else StartedCi
    case Replay(_) => Replayed
    case _ => Refused
  }

  /** One call of the CI runner, with the clock of the reservation it follows. */
  datatype CiStart = CiStart(at: int, hash: string, delivery: Delivery)

  datatype Hook = Hook(deliveries: DeliveryTable, ciStarts: seq<CiStart>)

  /** One admitted request: the clock of its reservation and that of the later cleanup statement. */
  datatype Push = Push(hash: string, offered: Delivery, now: int, cleanupAt: int)

  function Reservation(before: Hook, push: Push): (DeliveryTable, Answer<Delivery>) {
    ReserveTx(before.deliveries, push.now, RETENTION_SECONDS, push.hash, push.offered, SameDelivery)
  }

  /** Handling `push` takes the store from `before` to `after`; cleanup may fail. */
  ghost predicate Admits(before: Hook, push: Push, after: Hook, ack: Ack) {
    var (table, answer) := Reservation(before, push);
    && ack == AckFor(answer, push.offered)
    && after.ciStarts == (if ack.StartedCi? then before.ciStarts + [CiStart(push.now, push.hash, push.offered)]
                          else before.ciStarts)
    && if ack.Refused? then after.deliveries == before.deliveries
       else after.deliveries == table
            || exists gone :: LegalBatch(table, push.cleanupAt, CLEANUP_BATCH_SIZE, gone)
                              && after.deliveries == table - gone
  }

  class WebhookStore {
    var deliveries: DeliveryTable
    var ciStarts: seq<CiStart>

    constructor ()
      ensures deliveries == map[] && ciStarts == []
    {
      deliveries, ciStarts := map[], [];
    }

    /** One transaction; a mismatch returns before the commit, so nothing it did survives. */
    method ReserveDelivery(hash: string, offered: Delivery, now: int) returns (answer: Answer<Delivery>)
      modifies this`deliveries
      ensures (deliveries, answer) == ReserveTx(old(deliveries), now, RETENTION_SECONDS, hash, offered, SameDelivery)
    {
      var tx := deliveries;
      if hash in tx && tx[hash].expiresAt <= now {
        tx := tx - {hash};
      }
      if hash !in tx {
        deliveries := tx[hash := Entry(offered, now + RETENTION_SECONDS)];
        return Fresh;
      }
      var row := tx[hash].value;
      var matches := row.payloadHash == offered.payloadHash && row.orgId == offered.orgId
                     && row.repoId == offered.repoId && row.eventType == offered.eventType
                     && row.commitSha == offered.commitSha;
      if !matches {
        return Conflict;
      }
      deliveries := tx;
      return Replay(row);
    }

    method CleanupExpired(now: int) returns (removed: nat)
      modifies this`deliveries
      ensures exists gone :: LegalBatch(old(deliveries), now, CLEANUP_BATCH_SIZE, gone)
                             && deliveries == old(deliveries) - gone && removed == |gone|
      ensures Live(deliveries, now) == Live(old(deliveries), now)
      ensures removed == Min(1_000, |set k | k in old(deliveries) && old(deliveries)[k].expiresAt <= now|)
      ensures forall k :: k in deliveries ==> k in old(deliveries) && deliveries[k] == old(deliveries)[k]
      ensures forall k :: k in old(deliveries) && old(deliveries)[k].expiresAt > now ==> k in deliveries
      ensures forall a, b :: (a in old(deliveries) && a !in deliveries && b in deliveries
                              && deliveries[b].expiresAt <= now)
                             ==> old(deliveries)[a].expiresAt <= deliveries[b].expiresAt
    {
      var gone;
      deliveries, gone := CleanupBatch(deliveries, now, CLEANUP_BATCH_SIZE);
      removed := |gone|;
      assert ExpiredKeys(old(deliveries), now) == set k | k in old(deliveries) && old(deliveries)[k].expiresAt <= now;
    }

    /** The handler after signature, header and repository checks. */
    method AdmitPush(push: Push, cleanupWorks: bool) returns (ack: Ack)
      requires push.now <= push.cleanupAt
      modifies this
      ensures Admits(Hook(old(deliveries), old(ciStarts)), push, Hook(deliveries, ciStarts), ack)
      ensures Live(deliveries, push.cleanupAt)
              == Live(Reservation(Hook(old(deliveries), []), push).0, push.cleanupAt)
    {
      OnlyFreshWrites(deliveries, push.now, RETENTION_SECONDS, push.hash, push.offered, SameDelivery);
      var answer := ReserveDelivery(push.hash, push.offered, push.now);
      if answer.Conflict? {
        return Refused;
      }
      if cleanupWorks {
        var _ := CleanupExpired(push.cleanupAt);
      }
      if answer.Replay? {
        return Replayed;
      }
      var sha := push.offered.commitSha;
      var zero := true;
      for i := 0 to |sha|
        invariant zero <==> forall n :: 0 <= n < i ==> sha[n] == '0'
      {
        if sha[i] != '0' {
          zero := false;
        }
      }
      if zero {
        return IgnoredDeletion;
      }
      ciStarts := ciStarts + [CiStart(push.now, push.hash, push.offered)];
      return StartedCi;
    }
  }

  /** Over every sequence of deliveries, clock ticks and cleanups: of two deliveries with the same hash
      inside one retention window, the second never starts CI; it is acknowledged as a replay exactly when
      all five fields repeat the first, and refused otherwise.  Two CI starts for one hash are a full
      window apart. */
  lemma {:induction false} OneCiStartPerWindow(ops: seq<Op<string, Delivery>>, i: nat, j: nat)
    ensures var log := Exec(Empty<string, Delivery>(), ops, DELIVERY_RULES).log;
            && (i < j < |log| && log[i].answer.Fresh? && log[i].k == log[j].k && log[j].at < log[i].at + 86_400 ==>
                  AckFor(log[j].answer, log[j].offered)
                  == if && log[i].offered.payloadHash == log[j].offered.payloadHash
                        && log[i].offered.orgId == log[j].offered.orgId
                        && log[i].offered.repoId == log[j].offered.repoId
                        && log[i].offered.eventType == log[j].offered.eventType
                        && log[i].offered.commitSha == log[j].offered.commitSha then Replayed else Refused)
            && (i < j < |log| && log[i].k == log[j].k
                && AckFor(log[i].answer, log[i].offered).StartedCi? && AckFor(log[j].answer, log[j].offered).StartedCi?
                ==> log[j].at >= log[i].at + 86_400)
  {
    OneFreshPerWindow(ops, DELIVERY_RULES, i, j);
  }

  /** Outside every window a delivery is new: it is never refused or silently dropped. */
  lemma {:induction false} NewOutsideWindows(ops: seq<Op<string, Delivery>>, j: nat)
    ensures var log := Exec(Empty<string, Delivery>(), ops, DELIVERY_RULES).log;
            && j < |log| && !log[j].answer.Miss?
            && (forall i :: 0 <= i < j && log[i].answer.Fresh? && log[i].k == log[j].k
                            ==> log[j].at >= log[i].at + 86_400) ==>
              var sha := log[j].offered.commitSha;
              AckFor(log[j].answer, log[j].offered)
              == if exists n :: 0 <= n < |sha| && sha[n] != '0' then StartedCi else IgnoredDeletion
  {
    OneFreshPerWindow(ops, DELIVERY_RULES, j, j);
  }
}
