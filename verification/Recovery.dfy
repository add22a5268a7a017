/** The recovery scan: every five seconds, the oldest fifty eligible runs are dispatched, and each
    dispatched worker tries to claim its run. */
module Recovery {
  import opened Prelude
  import opened ActionRuns

  const SCAN_LIMIT: nat := 50

  function Eligible(runs: RunTable, now: int): (ids: set<RunId>)
  {
    set id | id in runs && Claimable(runs[id], now)
  }

  predicate Older(runs: RunTable, a: RunId, b: RunId)
    requires a in runs && b in runs
  {
    runs[a].createdAtMillis <= runs[b].createdAtMillis
  }

  /** What `order by created_at_millis limit 50` promises; ties may fall either way. */
  ghost predicate LegalScan(runs: RunTable, now: int, rows: seq<RunId>) {
    && (forall i, j :: 0 <= i < j < |rows| ==> rows[i] != rows[j])
    && (forall i :: 0 <= i < |rows| ==> rows[i] in Eligible(runs, now))
    && |rows| == Min(SCAN_LIMIT, |Eligible(runs, now)|)
    && (forall i, j :: 0 <= i < j < |rows| ==> Older(runs, rows[i], rows[j]))
    && (forall i, id :: 0 <= i < |rows| && id in Eligible(runs, now) && id !in rows ==> Older(runs, rows[i], id))
  }

  /** The oldest of a non-empty set of runs. */
  method Oldest(runs: RunTable, ids: set<RunId>) returns (best: RunId)
    requires ids != {} && ids <= runs.Keys
    ensures best in ids && forall id :: id in ids ==> Older(runs, best, id)
  {
    best :| best in ids;
    var rest := ids - {best};
    while rest != {}
      invariant rest <= ids && best in ids
      invariant forall id :: id in ids && id !in rest ==> Older(runs, best, id)
      decreases rest
    {
      var id :| id in rest;
      if !Older(runs, best, id) {
        best := id;
      }
      rest := rest - {id};
    }
  }

  /** A legal scan in terms of the columns. */
  lemma {:induction false} ScanMeans(runs: RunTable, now: int, rows: seq<RunId>)
    requires LegalScan(runs, now, rows)
    ensures |rows| <= 50 && forall i, j :: 0 <= i < j < |rows| ==> rows[i] != rows[j]
    ensures forall id :: id in rows ==>
              id in runs && (runs[id].status == Queued
                             || (runs[id].status == Running
                                 && (runs[id].leaseExpiresAt == None || runs[id].leaseExpiresAt.value < now)))
    ensures forall i, j :: 0 <= i < j < |rows| ==> runs[rows[i]].createdAtMillis <= runs[rows[j]].createdAtMillis
    ensures forall id :: id in runs && id !in rows && (runs[id].status == Queued
                           || (runs[id].status == Running
                               && (runs[id].leaseExpiresAt == None || runs[id].leaseExpiresAt.value < now)))
              ==> |rows| == 50
                  && forall i :: 0 <= i < |rows| ==> runs[rows[i]].createdAtMillis <= runs[id].createdAtMillis
  {
    if |rows| < SCAN_LIMIT {
      DistinctCount(rows);
      var all, taken := Eligible(runs, now), set id | id in rows;
      assert taken <= all;
      forall id | id in all ensures id in taken {
        AllTaken(taken, all, id);
      }
    }
    forall id | id in runs && id !in rows && (runs[id].status == Queued
                  || (runs[id].status == Running
                      && (runs[id].leaseExpiresAt == None || runs[id].leaseExpiresAt.value < now)))
      ensures |rows| == 50
      ensures forall i :: 0 <= i < |rows| ==> runs[rows[i]].createdAtMillis <= runs[id].createdAtMillis
    {
      assert id in Eligible(runs, now);
      assert forall i :: 0 <= i < |rows| ==> Older(runs, rows[i], id);
    }
  }

  lemma {:induction false} AllTaken<T>(a: set<T>, b: set<T>, x: T)
    requires a <= b && |a| == |b| && x in b
    ensures x in a
  {
    if x !in a {
      SubsetSize(a + {x}, b);
    }
  }

  method Scan(runs: RunTable, now: int) returns (rows: seq<RunId>)
    ensures LegalScan(runs, now, rows)
    ensures |rows| <= 50 && forall i, j :: 0 <= i < j < |rows| ==> rows[i] != rows[j]
    ensures forall id :: id in rows ==>
              id in runs && (runs[id].status == Queued
                             || (runs[id].status == Running
                                 && (runs[id].leaseExpiresAt == None || runs[id].leaseExpiresAt.value < now)))
    ensures forall i, j :: 0 <= i < j < |rows| ==> runs[rows[i]].createdAtMillis <= runs[rows[j]].createdAtMillis
    ensures forall id :: id in runs && id !in rows && (runs[id].status == Queued
                           || (runs[id].status == Running
                               && (runs[id].leaseExpiresAt == None || runs[id].leaseExpiresAt.value < now)))
              ==> |rows| == 50
                  && forall i :: 0 <= i < |rows| ==> runs[rows[i]].createdAtMillis <= runs[id].createdAtMillis
  {
    rows := [];
    var rest := Eligible(runs, now);
    while rest != {} && |rows| < SCAN_LIMIT
      invariant forall i :: 0 <= i < |rows| ==> rows[i] in Eligible(runs, now)
      invariant forall i, j :: 0 <= i < j < |rows| ==> rows[i] != rows[j] && Older(runs, rows[i], rows[j])
      invariant rest <= Eligible(runs, now)
      invariant forall id :: id in Eligible(runs, now) <==> id in rest || id in rows
      invariant forall id :: id in rows ==> id !in rest
      invariant |rows| + |rest| == |Eligible(runs, now)| && |rows| <= SCAN_LIMIT
      invariant forall i, id :: 0 <= i < |rows| && id in rest ==> Older(runs, rows[i], id)
      decreases rest
    {
      var best := Oldest(runs, rest);
      rest := rest - {best};
      rows := rows + [best];
    }
    ScanMeans(runs, now, rows);
  }

  // ---------------------------------------------------------------- what a scan passes over

  lemma {:induction false} DistinctCount(rows: seq<RunId>)
    requires forall i, j :: 0 <= i < j < |rows| ==> rows[i] != rows[j]
    ensures |set id | id in rows| == |rows|
    decreases |rows|
  {
    var all := set id | id in rows;
    if rows == [] {
      assert all == {};
    } else {
      var init, last := rows[..|rows| - 1], rows[|rows| - 1];
      DistinctCount(init);
      assert rows == init + [last];
      assert all == (set id | id in init) + {last};
    }
  }

  /** The eligible runs that a scan may prefer to a run created at `bound`. */
  function Rivals(runs: RunTable, now: int, bound: int): set<RunId> {
    set id | id in runs && Claimable(runs[id], now) && runs[id].createdAtMillis <= bound
  }

  /** A scan that passes a run over was filled with fifty runs at least as old. */
  lemma {:induction false} PassedOver(runs: RunTable, now: int, rows: seq<RunId>, id: RunId)
    requires LegalScan(runs, now, rows)
    requires id in Eligible(runs, now) && id !in rows
    ensures var taken := set x | x in rows;
            |taken| == 50 && taken <= Rivals(runs, now, runs[id].createdAtMillis) - {id}
  {
    DistinctCount(rows);
    var taken := set x | x in rows;
    assert taken <= Eligible(runs, now);
    if |rows| < SCAN_LIMIT {
      assert |taken| == |Eligible(runs, now)|;
      assert taken + {id} <= Eligible(runs, now);
      SubsetSize(taken + {id}, Eligible(runs, now));
      assert false;
    }
    forall x | x in taken ensures x in Rivals(runs, now, runs[id].createdAtMillis) - {id} {
      var i :| 0 <= i < |rows| && rows[i] == x;
      assert Older(runs, rows[i], id);
    }
  }

  lemma {:induction false} SubsetSize<T>(a: set<T>, b: set<T>)
    requires a <= b
    ensures |a| <= |b|
    decreases b
  {
    if a != {} {
      var x :| x in a;
      SubsetSize(a - {x}, b - {x});
    }
  }

  lemma {:induction false} OldestExists(runs: RunTable, ids: set<RunId>) returns (best: RunId)
    requires ids != {} && ids <= runs.Keys
    ensures best in ids && forall id :: id in ids ==> Older(runs, best, id)
    decreases |ids|
  {
    best :| best in ids;
    if ids != {best} {
      var other := OldestExists(runs, ids - {best});
      var first := best;
      best := if Older(runs, first, other) then first else other;
      assert forall id :: id in ids ==> id == first || id in ids - {first};
    }
  }

  lemma {:induction false} OldestFirst(runs: RunTable, ids: set<RunId>, n: nat) returns (rows: seq<RunId>)
    requires ids <= runs.Keys
    ensures |rows| == Min(n, |ids|) && forall id :: id in rows ==> id in ids
    ensures forall i, j :: 0 <= i < j < |rows| ==> rows[i] != rows[j] && Older(runs, rows[i], rows[j])
    ensures forall i, id :: 0 <= i < |rows| && id in ids && id !in rows ==> Older(runs, rows[i], id)
    decreases |ids|
  {
    rows := [];
    if ids != {} && n > 0 {
      var best := OldestExists(runs, ids);
      var rest := OldestFirst(runs, ids - {best}, n - 1);
      rows := [best] + rest;
      assert forall i :: 0 < i < |rows| ==> rows[i] == rest[i - 1] && rest[i - 1] in rest;
    }
  }

  /** There is always something a scan may return. */
  lemma {:induction false} ScanExists(runs: RunTable, now: int) returns (rows: seq<RunId>)
    ensures LegalScan(runs, now, rows)
  {
    rows := OldestFirst(runs, Eligible(runs, now), SCAN_LIMIT);
  }
}
