/** Tables of keyed reservations with a time to live, as the idempotency and webhook stores use them.

    Rows outlive their expiry until a cleanup batch or the next reservation of the same key removes them.
    `Reserve` is one transaction: delete the key's row if it has expired, insert if the key is then free,
    otherwise compare with the stored value.  `Peek` is the read-only lookup.  Each transaction sees one
    clock value, and clock values never go back. */
module TtlTable {
  import opened Prelude
  import opened Behaviours

  datatype Entry<+V> = Entry(value: V, expiresAt: int)

  type Table<K, +V> = map<K, Entry<V>>

  /** `Fresh`: the offered value was stored.  `Replay`: an unexpired matching value is already there.
      `Conflict`: an unexpired different value is.  `Miss`: a lookup found nothing unexpired. */
  datatype Answer<+V> = Fresh | Replay(stored: V) | Conflict | Miss

  predicate Expired<V>(entry: Entry<V>, now: int) {
    entry.expiresAt <= now
  }

  function ExpiredKeys<K, V>(table: Table<K, V>, now: int): set<K> {
    set k | k in table && Expired(table[k], now)
  }

  /** The entries that count at time `now`. */
  function Live<K, V>(table: Table<K, V>, now: int): Table<K, V> {
    map k | k in table && !Expired(table[k], now) :: table[k]
  }

  function Compare<V>(stored: V, offered: V, same: (V, V) -> bool): Answer<V> {
    if same(stored, offered) then Replay(stored) else Conflict
  }

  function ReserveTx<K, V>(table: Table<K, V>, now: int, ttl: nat, k: K, v: V, same: (V, V) -> bool)
    : (Table<K, V>, Answer<V>)
  {
    var swept := if k in table && Expired(table[k], now) then table - {k} else table;
    if k !in swept then (swept[k := Entry(v, now + ttl)], Fresh)
    else if same(swept[k].value, v) then (swept, Replay(swept[k].value))
    else (table, Conflict)                                  // the transaction is rolled back
  }

  function PeekQuery<K, V>(table: Table<K, V>, now: int, k: K, v: V, same: (V, V) -> bool): Answer<V> {
    if k in table && table[k].expiresAt > now then Compare(table[k].value, v, same) else Miss
  }

  /** What one cleanup batch may remove: the expired rows that expire first, up to `limit` of them. */
  ghost predicate LegalBatch<K, V>(table: Table<K, V>, now: int, limit: nat, gone: set<K>) {
    && gone <= ExpiredKeys(table, now)
    && |gone| == Min(limit, |ExpiredKeys(table, now)|)
    && (forall a, b :: a in gone && b in ExpiredKeys(table, now) - gone ==> table[a].expiresAt <= table[b].expiresAt)
  }

  method CleanupBatch<K, V>(table: Table<K, V>, now: int, limit: nat) returns (kept: Table<K, V>, gone: set<K>)
    ensures LegalBatch(table, now, limit, gone)
    ensures kept == table - gone && Live(kept, now) == Live(table, now)
  {
    gone := TakeEarliest(table, ExpiredKeys(table, now), limit);
    kept := table - gone;
  }

  method TakeEarliest<K, V>(table: Table<K, V>, keys: set<K>, limit: nat) returns (gone: set<K>)
    requires keys <= table.Keys
    ensures gone <= keys && |gone| == Min(limit, |keys|)
    ensures forall a, b :: a in gone && b in keys - gone ==> table[a].expiresAt <= table[b].expiresAt
  {
    gone := {};
    var rest := keys;
    while rest != {} && |gone| < limit
      invariant gone <= keys && rest == keys - gone
      invariant |gone| <= limit && |gone| + |rest| == |keys|
      invariant forall a, b :: a in gone && b in rest ==> table[a].expiresAt <= table[b].expiresAt
      decreases |rest|
    {
      var oldest := Earliest(table, rest);
      gone := gone + {oldest};
      rest := rest - {oldest};
    }
  }

  method Earliest<K, V>(table: Table<K, V>, keys: set<K>) returns (best: K)
    requires keys != {} && keys <= table.Keys
    ensures best in keys && forall k :: k in keys ==> table[best].expiresAt <= table[k].expiresAt
  {
    best :| best in keys;
    var rest := keys - {best};
    while rest != {}
      invariant rest <= keys && best in keys
      invariant forall k :: k in keys && k !in rest ==> table[best].expiresAt <= table[k].expiresAt
      decreases rest
    {
      var k :| k in rest;
      if table[k].expiresAt < table[best].expiresAt {
        best := k;
      }
      rest := rest - {k};
    }
  }

  // ---------------------------------------------------------------- behaviours

  /** `Cleanup` removes any of the named rows that have expired: every batch, of any size, at any time. */
  datatype Op<K, +V> = Advance(seconds: nat) | Peek(k: K, v: V) | Reserve(k: K, v: V) | Cleanup(keys: set<K>)

  datatype Outcome<K, +V> = Outcome(at: int, k: K, offered: V, answer: Answer<V>)

  datatype State<K, +V> = State(table: Table<K, V>, now: int, log: seq<Outcome<K, V>>)

  /** The fixed parts of one store. */
  datatype Rules<!V> = Rules(ttl: nat, same: (V, V) -> bool)

  function Apply<K, V>(s: State<K, V>, op: Op<K, V>, rules: Rules<V>): State<K, V> {
    match op
    case Advance(seconds) => s.(now := s.now + seconds)
    case Peek(k, v) =>
      s.(log := s.log + [Outcome(s.now, k, v, PeekQuery(s.table, s.now, k, v, rules.same))])
    case Reserve(k, v) =>
      var (table, answer) := ReserveTx(s.table, s.now, rules.ttl, k, v, rules.same);
      State(table, s.now, s.log + [Outcome(s.now, k, v, answer)])
    case Cleanup(keys) => s.(table := s.table - (keys * ExpiredKeys(s.table, s.now)))
  }

  function Exec<K, V>(s: State<K, V>, ops: seq<Op<K, V>>, rules: Rules<V>): State<K, V> {
    Run((t: State<K, V>, op: Op<K, V>) => Apply(t, op, rules), s, ops)
  }

  // ---------------------------------------------------------------- the abstract map of live entries

  /** The specification: no row ever outlives its expiry, and there is nothing to clean up. */
  function AbstractApply<K, V>(s: State<K, V>, op: Op<K, V>, rules: Rules<V>): State<K, V> {
    match op
    case Advance(seconds) => s.(table := Live(s.table, s.now + seconds), now := s.now + seconds)
    case Peek(k, v) =>
      s.(log := s.log + [Outcome(s.now, k, v, if k in s.table then Compare(s.table[k].value, v, rules.same) else Miss)])
    case Reserve(k, v) =>
      if k in s.table
      then s.(log := s.log + [Outcome(s.now, k, v, Compare(s.table[k].value, v, rules.same))])
      else State(s.table[k := Entry(v, s.now + rules.ttl)], s.now, s.log + [Outcome(s.now, k, v, Fresh)])
    case Cleanup(_) => s
  }

  function AbstractExec<K, V>(s: State<K, V>, ops: seq<Op<K, V>>, rules: Rules<V>): State<K, V> {
    Run((t: State<K, V>, op: Op<K, V>) => AbstractApply(t, op, rules), s, ops)
  }

  function Abstract<K, V>(s: State<K, V>): State<K, V> {
    s.(table := Live(s.table, s.now))
  }

  lemma {:induction false} StepRefines<K, V>(s: State<K, V>, op: Op<K, V>, rules: Rules<V>)
    requires rules.ttl > 0
    ensures AbstractApply(Abstract(s), op, rules) == Abstract(Apply(s, op, rules))
  {
    var a, c := AbstractApply(Abstract(s), op, rules), Abstract(Apply(s, op, rules));
    assert a.table == c.table;
  }

  /** The table with late cleanup answers every request as the map of live entries does. */
  lemma {:induction false} RefinesLiveMap<K, V>(s: State<K, V>, ops: seq<Op<K, V>>, rules: Rules<V>)
    requires rules.ttl > 0
    ensures AbstractExec(Abstract(s), ops, rules) == Abstract(Exec(s, ops, rules))
    decreases |ops|
  {
    if ops != [] {
      StepRefines(s, ops[0], rules);
      RefinesLiveMap(Apply(s, ops[0], rules), ops[1..], rules);
    }
  }

  function WithoutCleanup<K, V>(ops: seq<Op<K, V>>): seq<Op<K, V>> {
    if ops == [] then []
    else (if ops[0].Cleanup? then [] else [ops[0]]) + WithoutCleanup(ops[1..])
  }

  lemma {:induction false} AbstractIgnoresCleanup<K, V>(s: State<K, V>, ops: seq<Op<K, V>>, rules: Rules<V>)
    ensures AbstractExec(s, WithoutCleanup(ops), rules) == AbstractExec(s, ops, rules)
    decreases |ops|
  {
    if ops != [] {
      AbstractIgnoresCleanup(AbstractApply(s, ops[0], rules), ops[1..], rules);
      if !ops[0].Cleanup? {
        assert WithoutCleanup(ops) == [ops[0]] + WithoutCleanup(ops[1..]);
        assert WithoutCleanup(ops)[0] == ops[0] && WithoutCleanup(ops)[1..] == WithoutCleanup(ops[1..]);
        assert AbstractExec(s, WithoutCleanup(ops), rules)
            == AbstractExec(AbstractApply(s, ops[0], rules), WithoutCleanup(ops[1..]), rules);
      } else {
        assert WithoutCleanup(ops) == WithoutCleanup(ops[1..]);
      }
    }
  }

  /** Whether, when and how much is cleaned up never shows: two histories that differ only in cleanup give
      the same answer to every request. */
  lemma {:induction false} CleanupIsInvisible<K, V>(
      s: State<K, V>, ops: seq<Op<K, V>>, others: seq<Op<K, V>>, rules: Rules<V>)
    requires rules.ttl > 0 && WithoutCleanup(ops) == WithoutCleanup(others)
    ensures Exec(s, ops, rules).log == Exec(s, others, rules).log
    ensures Live(Exec(s, ops, rules).table, Exec(s, ops, rules).now)
            == Live(Exec(s, others, rules).table, Exec(s, others, rules).now)
  {
    RefinesLiveMap(s, ops, rules);
    RefinesLiveMap(s, others, rules);
    AbstractIgnoresCleanup(Abstract(s), ops, rules);
    AbstractIgnoresCleanup(Abstract(s), others, rules);
  }

  // ---------------------------------------------------------------- one fresh answer per window

  predicate FreshOn<K(==), V>(o: Outcome<K, V>, k: K) {
    o.k == k && o.answer.Fresh?
  }

  /** `later` falls into the lifetime that `first` started. */
  predicate Covers<K(==), V>(first: Outcome<K, V>, later: Outcome<K, V>, ttl: nat) {
    FreshOn(first, later.k) && later.at < first.at + ttl
  }

  /** Every answer inside a lifetime is the one its first value dictates, and every replay lies inside the
      lifetime of the value it returns. */
  ghost predicate Windowed<K, V>(log: seq<Outcome<K, V>>, rules: Rules<V>) {
    && (forall i, j :: 0 <= i < j < |log| && Covers(log[i], log[j], rules.ttl) ==>
          log[j].answer == Compare(log[i].offered, log[j].offered, rules.same))
    && (forall j :: 0 <= j < |log| && (log[j].answer.Replay? || log[j].answer.Conflict?) ==>
          exists i :: 0 <= i < j && Covers(log[i], log[j], rules.ttl)
                      && log[j].answer == Compare(log[i].offered, log[j].offered, rules.same))
  }

  ghost predicate Inv<K, V>(s: State<K, V>, rules: Rules<V>) {
    && Windowed(s.log, rules)
    && (forall i :: 0 <= i < |s.log| ==> s.log[i].at <= s.now)
    && FreshStored(s.log, s.table, s.now, rules.ttl)
    && AllBacked(s.log, s.table, rules.ttl)
  }

  /** What was stored afresh and has not expired is still there. */
  ghost predicate FreshStored<K, V>(log: seq<Outcome<K, V>>, table: Table<K, V>, now: int, ttl: nat) {
    forall i :: 0 <= i < |log| && log[i].answer.Fresh? && now < log[i].at + ttl ==>
      log[i].k in table && table[log[i].k] == Entry(log[i].offered, log[i].at + ttl)
  }

  ghost predicate AllBacked<K, V>(log: seq<Outcome<K, V>>, table: Table<K, V>, ttl: nat) {
    forall k :: k in table ==> Backed(log, k, table[k], ttl)
  }

  /** A row is there because some request stored it afresh. */
  ghost predicate Backed<K, V>(log: seq<Outcome<K, V>>, k: K, entry: Entry<V>, ttl: nat) {
    exists i :: 0 <= i < |log| && FreshOn(log[i], k) && entry == Entry(log[i].offered, log[i].at + ttl)
  }

  lemma {:induction false} BackedAppend<K, V>(
      log: seq<Outcome<K, V>>, o: Outcome<K, V>, k: K, entry: Entry<V>, ttl: nat)
    requires Backed(log, k, entry, ttl)
    ensures Backed(log + [o], k, entry, ttl)
  {
    var i :| 0 <= i < |log| && FreshOn(log[i], k) && entry == Entry(log[i].offered, log[i].at + ttl);
    assert (log + [o])[i] == log[i];
  }

  lemma {:induction false} AppendKeepsWindows<K, V>(s: State<K, V>, o: Outcome<K, V>, rules: Rules<V>)
    requires Inv(s, rules) && o.at == s.now
    requires if o.k in s.table && !Expired(s.table[o.k], s.now)
             then o.answer == Compare(s.table[o.k].value, o.offered, rules.same)
             else o.answer.Fresh? || o.answer.Miss?
    ensures Windowed(s.log + [o], rules)
  {
    var log := s.log + [o];
    forall j | 0 <= j < |log| && (log[j].answer.Replay? || log[j].answer.Conflict?)
      ensures exists i :: 0 <= i < j && Covers(log[i], log[j], rules.ttl)
                          && log[j].answer == Compare(log[i].offered, log[j].offered, rules.same)
    {
      if j < |s.log| {
        var i :| 0 <= i < j && Covers(s.log[i], s.log[j], rules.ttl)
                 && s.log[j].answer == Compare(s.log[i].offered, s.log[j].offered, rules.same);
        assert log[i] == s.log[i] && log[j] == s.log[j];
      } else {
        var i :| 0 <= i < |s.log| && FreshOn(s.log[i], o.k)
                 && s.table[o.k] == Entry(s.log[i].offered, s.log[i].at + rules.ttl);
        assert log[i] == s.log[i] && Covers(log[i], log[j], rules.ttl);
      }
    }
  }

  lemma {:induction false} PeekKeepsInv<K, V>(s: State<K, V>, k: K, v: V, rules: Rules<V>)
    requires Inv(s, rules)
    ensures Inv(Apply(s, Peek(k, v), rules), rules)
  {
    var o := Outcome(s.now, k, v, PeekQuery(s.table, s.now, k, v, rules.same));
    AppendKeepsWindows(s, o, rules);
    OtherAnswer(s.log, s.table, s.now, o, rules.ttl);
    hide Windowed, FreshStored, AllBacked;
  }

  lemma {:induction false} OtherAnswer<K, V>(
      log: seq<Outcome<K, V>>, table: Table<K, V>, now: int, o: Outcome<K, V>, ttl: nat)
    requires !o.answer.Fresh? && FreshStored(log, table, now, ttl) && AllBacked(log, table, ttl)
    ensures FreshStored(log + [o], table, now, ttl) && AllBacked(log + [o], table, ttl)
  {
    hide Backed;
    forall x | x in table ensures Backed(log + [o], x, table[x], ttl) {
      BackedAppend(log, o, x, table[x], ttl);
    }
  }

  lemma {:induction false} FreshAnswer<K, V>(
      log: seq<Outcome<K, V>>, table: Table<K, V>, now: int, o: Outcome<K, V>, ttl: nat)
    requires o.answer.Fresh? && o.at == now && o.k !in Live(table, now)
    requires FreshStored(log, table, now, ttl) && AllBacked(log, table, ttl)
    ensures var after := table[o.k := Entry(o.offered, now + ttl)];
            FreshStored(log + [o], after, now, ttl) && AllBacked(log + [o], after, ttl)
  {
    var after := table[o.k := Entry(o.offered, now + ttl)];
    assert Backed(log + [o], o.k, after[o.k], ttl) by {
      assert (log + [o])[|log|] == o;
    }
    hide Backed;
    forall x | x in after ensures Backed(log + [o], x, after[x], ttl) {
      if x != o.k {
        BackedAppend(log, o, x, table[x], ttl);
      }
    }
    forall i | 0 <= i < |log| && log[i].answer.Fresh? && now < log[i].at + ttl
      ensures log[i].k in after && after[log[i].k] == Entry(log[i].offered, log[i].at + ttl)
    {
      assert log[i].k in Live(table, now);
    }
  }

  lemma {:induction false} ReserveKeepsInv<K, V>(s: State<K, V>, k: K, v: V, rules: Rules<V>)
    requires Inv(s, rules) && rules.ttl > 0
    ensures Inv(Apply(s, Reserve(k, v), rules), rules)
  {
    var (table, answer) := ReserveTx(s.table, s.now, rules.ttl, k, v, rules.same);
    var o := Outcome(s.now, k, v, answer);
    AppendKeepsWindows(s, o, rules);
    OnlyFreshWrites(s.table, s.now, rules.ttl, k, v, rules.same);
    hide Windowed, FreshStored, AllBacked, ReserveTx, Live;
    if answer.Fresh? {
      FreshAnswer(s.log, s.table, s.now, o, rules.ttl);
    } else {
      OtherAnswer(s.log, s.table, s.now, o, rules.ttl);
    }
  }

  lemma {:induction false} StepKeepsInv<K, V>(s: State<K, V>, op: Op<K, V>, rules: Rules<V>)
    requires Inv(s, rules) && rules.ttl > 0
    ensures Inv(Apply(s, op, rules), rules)
  {
    hide Windowed, Backed;
    match op
    case Peek(k, v) => PeekKeepsInv(s, k, v, rules);
    case Reserve(k, v) => ReserveKeepsInv(s, k, v, rules);
    case _ =>
  }

  lemma {:induction false} ExecKeepsInv<K, V>(s: State<K, V>, ops: seq<Op<K, V>>, rules: Rules<V>)
    requires Inv(s, rules) && rules.ttl > 0
    ensures Inv(Exec(s, ops, rules), rules)
    decreases |ops|
  {
    if ops != [] {
      StepKeepsInv(s, ops[0], rules);
      ExecKeepsInv(Apply(s, ops[0], rules), ops[1..], rules);
    }
  }

  function Empty<K, V>(): State<K, V> {
    State(map[], 0, [])
  }

  /** From an empty table, over every sequence of operations: a key is stored afresh at most once per
      lifetime; within the lifetime every matching request gets the first value back and every other one a
      conflict; and nothing is replayed or refused outside such a lifetime. */
  lemma {:induction false} OneFreshPerWindow<K, V>(ops: seq<Op<K, V>>, rules: Rules<V>, i: nat, j: nat)
    requires rules.ttl > 0
    ensures var log := Exec(Empty<K, V>(), ops, rules).log;
            && Windowed(log, rules)
            && (i < j < |log| && log[i].k == log[j].k && log[i].answer.Fresh? && log[j].answer.Fresh? ==>
                  log[j].at >= log[i].at + rules.ttl)
  {
    ExecKeepsInv(Empty<K, V>(), ops, rules);
  }

  /** A conflicting or replayed request leaves the stored rows as they were. */
  lemma {:induction false} OnlyFreshWrites<K, V>(
      table: Table<K, V>, now: int, ttl: nat, k: K, v: V, same: (V, V) -> bool)
    ensures var (after, answer) := ReserveTx(table, now, ttl, k, v, same);
            && !answer.Miss?
            && (!answer.Fresh? ==> after == table)
            && (answer.Fresh? ==> after == table[k := Entry(v, now + ttl)] && k !in Live(table, now))
  {
    if k in table {
      assert (table - {k})[k := Entry(v, now + ttl)] == table[k := Entry(v, now + ttl)];
    }
  }
}
