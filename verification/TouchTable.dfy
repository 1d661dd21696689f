/** The bounded rate limiter of last-used writes, against the unbounded one it stands in for. */
module TouchTable {
  import opened Wrappers

  const CAPACITY: nat := 4096

  /** When each key was last written, on a monotonic clock. */
  type Table = map<nat, nat>

  /** Time passed since `last`, zero when the clock reads earlier. */
  function Since(last: nat, now: nat): nat {
    if now >= last then now - last else 0
  }

  /** The key was written less than an interval ago. */
  predicate Recent(table: Table, id: nat, now: nat, interval: nat) {
    id in table && Since(table[id], now) < interval
  }

  function Retained(table: Table, now: nat, interval: nat): Table {
    map id | id in table && Since(table[id], now) < interval :: table[id]
  }

  /** A grant is recent until an interval has passed, on a clock that reads earlier as well; with no interval none is. */
  lemma RecentExactly(table: Table, id: nat, now: nat, interval: nat)
    ensures Recent(table, id, now, interval) <==> id in table && interval > 0 && now < table[id] + interval
    ensures id in Retained(table, now, interval) <==> id in table && interval > 0 && now < table[id] + interval
    ensures id in Retained(table, now, interval) ==> Retained(table, now, interval)[id] == table[id]
  {
  }

  /** The call finds the table full of recent keys and empties it. */
  predicate Clears(table: Table, id: nat, now: nat, interval: nat) {
    && !Recent(table, id, now, interval)
    && |table| >= CAPACITY
    && |Retained(table, now, interval)| >= CAPACITY
  }

  /** The table with room for one more. */
  function MadeRoom(table: Table, now: nat, interval: nat): Table {
    if |table| < CAPACITY then table
    else if |Retained(table, now, interval)| < CAPACITY then Retained(table, now, interval)
    else map[]
  }

  /** `should_touch`: the table it leaves and whether to write. */
  function Touched(table: Table, id: nat, now: nat, interval: nat): (Table, bool) {
    if Recent(table, id, now, interval) then (table, false)
    else (MadeRoom(table, now, interval)[id := now], true)
  }

  class Limiter {
    var touched: Table
    const interval: nat

    constructor (interval: nat)
      ensures touched == map[] && this.interval == interval
    {
      touched := map[];
      this.interval := interval;
    }

    method ShouldTouch(id: nat, now: nat) returns (write: bool)
      modifies this
      ensures (touched, write) == Touched(old(touched), id, now, interval)
    {
      if id in touched && Since(touched[id], now) < interval {
        return false;
      }
      if |touched| >= CAPACITY {
        touched := Retained(touched, now, interval);
        if |touched| >= CAPACITY {
          touched := map[];
        }
      }
      touched := touched[id := now];
      return true;
    }
  }

  // ----- Runs

  /** One call: which key, and what the clock reads. */
  datatype Call = Call(id: nat, now: nat)

  datatype Run = Run(interval: nat, calls: seq<Call>) {
    ghost predicate ClockAdvances() {
      forall i, j | 0 <= i < j < |calls| :: calls[i].now <= calls[j].now
    }

    function TableAt(i: nat): Table
      requires i <= |calls|
    {
      if i == 0 then map[] else Touched(TableAt(i - 1), calls[i - 1].id, calls[i - 1].now, interval).0
    }

    predicate Grants(i: nat)
      requires i < |calls|
    {
      Touched(TableAt(i), calls[i].id, calls[i].now, interval).1
    }

    predicate ClearsAt(i: nat)
      requires i < |calls|
    {
      Clears(TableAt(i), calls[i].id, calls[i].now, interval)
    }

    /** The limiter that never forgets: every key's last granted write. */
    function UnboundedAt(i: nat): Table
      requires i <= |calls|
    {
      if i == 0 then map[]
      else
        var table, call := UnboundedAt(i - 1), calls[i - 1];
        if Recent(table, call.id, call.now, interval) then table else table[call.id := call.now]
    }

    predicate UnboundedGrants(i: nat)
      requires i < |calls|
    {
      !Recent(UnboundedAt(i), calls[i].id, calls[i].now, interval)
    }
  }

  /** The table never outgrows its capacity. */
  lemma {:induction false} TableIsBounded(run: Run, i: nat)
    requires i <= |run.calls|
    ensures |run.TableAt(i)| <= 4096
    decreases i
  {
    if i > 0 {
      TableIsBounded(run, i - 1);
      var table, call := run.TableAt(i - 1), run.calls[i - 1];
      var room := MadeRoom(table, call.now, run.interval);
      assert |room| < CAPACITY;
      InsertOne(room, call.id, call.now);
    }
  }

  lemma InsertOne(table: Table, id: nat, now: nat)
    ensures |table[id := now]| <= |table| + 1
  {
    assert table[id := now].Keys == table.Keys + {id};
  }

  /** What the table holds is a granted call, with no clear since. */
  lemma {:induction false} EntriesAreGrants(run: Run, i: nat, id: nat) returns (k: nat)
    requires i <= |run.calls| && id in run.TableAt(i)
    ensures k < i && run.Grants(k) && run.calls[k] == Call(id, run.TableAt(i)[id])
    ensures forall c | k < c < i :: !run.ClearsAt(c)
    decreases i
  {
    var table, call := run.TableAt(i - 1), run.calls[i - 1];
    if call.id == id && run.Grants(i - 1) {
      k := i - 1;
    } else {
      k := EntriesAreGrants(run, i - 1, id);
    }
  }

  /** A clear means that a whole table of distinct keys was granted within one interval of it. */
  lemma ClearMeansFullTable(run: Run, i: nat) returns (ids: set<nat>)
    requires i < |run.calls| && run.ClearsAt(i) && run.ClockAdvances()
    ensures |ids| == 4096
    ensures forall id | id in ids ::
              exists k: nat | k < i :: run.Grants(k) && run.calls[k].id == id && run.calls[i].now - run.calls[k].now < run.interval
  {
    var now := run.calls[i].now;
    var kept := Retained(run.TableAt(i), now, run.interval);
    TableIsBounded(run, i);
    ids := kept.Keys;
    assert kept.Keys <= run.TableAt(i).Keys;
    SubsetSize(kept.Keys, run.TableAt(i).Keys);
    forall id | id in ids
      ensures exists k: nat | k < i :: run.Grants(k) && run.calls[k].id == id && now - run.calls[k].now < run.interval
    {
      var k := EntriesAreGrants(run, i, id);
    }
  }

  lemma SubsetSize(a: set<nat>, b: set<nat>)
    requires a <= b
    ensures |a| <= |b|
  {
    assert b == a + (b - a);
  }

  /** A recent grant is remembered until a clear. */
  lemma {:induction false} RecentGrantIsKept(run: Run, i: nat, j: nat)
    requires i < j < |run.calls| && run.ClockAdvances() && run.Grants(i)
    requires run.calls[j].now - run.calls[i].now < run.interval
    requires forall k | i < k < j :: !run.ClearsAt(k)
    ensures var id := run.calls[i].id;
            id in run.TableAt(j) && run.calls[i].now <= run.TableAt(j)[id] <= run.calls[j].now
    decreases j
  {
    var id := run.calls[i].id;
    if i + 1 < j {
      assert run.calls[j - 1].now <= run.calls[j].now && run.calls[i].now <= run.calls[j - 1].now;
      RecentGrantIsKept(run, i, j - 1);
      assert !run.ClearsAt(j - 1);
    }
  }

  /** Two grants to one key within an interval have a clear between them. */
  lemma EarlyRegrantNeedsClear(run: Run, i: nat, j: nat)
    requires i < j < |run.calls| && run.ClockAdvances()
    requires run.Grants(i) && run.Grants(j) && run.calls[i].id == run.calls[j].id
    requires run.calls[j].now - run.calls[i].now < run.interval
    ensures exists k: nat | i < k < j :: run.ClearsAt(k)
  {
    if forall k | i < k < j :: !run.ClearsAt(k) {
      RecentGrantIsKept(run, i, j);
    }
  }

  /** Every key the unbounded limiter would still refuse is in the bounded table, with the same time. */
  ghost predicate Agrees(table: Table, unbounded: Table, now: nat, interval: nat) {
    && (forall id | id in table :: id in unbounded && unbounded[id] == table[id])
    && (forall id | Recent(unbounded, id, now, interval) :: id in table)
  }

  lemma AgreementKept(table: Table, unbounded: Table, call: Call, later: nat, interval: nat)
    requires Agrees(table, unbounded, call.now, interval) && call.now <= later
    requires forall id | id in unbounded :: unbounded[id] <= call.now
    requires !Clears(table, call.id, call.now, interval)
    ensures Recent(table, call.id, call.now, interval) == Recent(unbounded, call.id, call.now, interval)
    ensures Agrees(Touched(table, call.id, call.now, interval).0,
                   if Recent(unbounded, call.id, call.now, interval) then unbounded else unbounded[call.id := call.now],
                   later, interval)
  {
  }

  lemma {:induction false} UnboundedInPast(run: Run, i: nat, now: nat)
    requires i <= |run.calls| && run.ClockAdvances()
    requires i > 0 ==> run.calls[i - 1].now <= now
    ensures forall id | id in run.UnboundedAt(i) :: run.UnboundedAt(i)[id] <= now
    decreases i
  {
    if i > 0 {
      UnboundedInPast(run, i - 1, run.calls[i - 1].now);
    }
  }

  /** Until a clear, the bounded limiter gives the unbounded one's answers. */
  lemma AnswersAgree(run: Run, i: nat)
    requires i < |run.calls| && run.ClockAdvances() && forall k | 0 <= k < i :: !run.ClearsAt(k)
    ensures run.Grants(i) == run.UnboundedGrants(i)
  {
    AgreesUpTo(run, i, run.calls[i].now);
    UnboundedInPast(run, i, run.calls[i].now);
  }

  lemma {:induction false} AgreesUpTo(run: Run, i: nat, now: nat)
    requires i <= |run.calls| && run.ClockAdvances() && forall k | 0 <= k < i :: !run.ClearsAt(k)
    requires i > 0 ==> run.calls[i - 1].now <= now
    ensures Agrees(run.TableAt(i), run.UnboundedAt(i), now, run.interval)
    decreases i
  {
    if i > 0 {
      var call := run.calls[i - 1];
      AgreesUpTo(run, i - 1, call.now);
      UnboundedInPast(run, i - 1, call.now);
      assert !run.ClearsAt(i - 1);
      AgreementKept(run.TableAt(i - 1), run.UnboundedAt(i - 1), call, now, run.interval);
    }
  }

  /** A write is refused exactly when one was granted to the key less than an interval ago, with no clear since. */
  lemma RefusedExactly(run: Run, m: nat)
    requires m < |run.calls| && run.ClockAdvances()
    ensures !run.Grants(m) <==>
            exists k: nat | k < m ::
              && run.Grants(k) && run.calls[k].id == run.calls[m].id
              && run.calls[m].now - run.calls[k].now < run.interval
              && forall c | k < c < m :: !run.ClearsAt(c)
  {
    if !run.Grants(m) {
      var k := EntriesAreGrants(run, m, run.calls[m].id);
    }
    if k: nat :| k < m && run.Grants(k) && run.calls[k].id == run.calls[m].id
                 && run.calls[m].now - run.calls[k].now < run.interval
                 && forall c | k < c < m :: !run.ClearsAt(c) {
      RecentGrantIsKept(run, k, m);
    }
  }

  /** A clear since the key's last call before `m`. */
  ghost predicate ClearedSince(run: Run, id: nat, i: nat, m: nat)
    requires m <= |run.calls|
  {
    exists c | i < c < m :: run.ClearsAt(c) && forall k | c <= k < m :: run.calls[k].id != id
  }

  /** The last call of the key from `i` on, before `m`. */
  lemma {:induction false} LastCall(run: Run, id: nat, i: nat, m: nat) returns (p: nat)
    requires i < m <= |run.calls| && run.calls[i].id == id
    ensures i <= p < m && run.calls[p].id == id && forall k | p < k < m :: run.calls[k].id != id
    decreases m
  {
    if run.calls[m - 1].id == id {
      p := m - 1;
    } else {
      p := LastCall(run, id, i, m - 1);
    }
  }

  /** Within an interval of a grant, a later call of the key is granted exactly when a clear separates it from the call before. */
  lemma GrantedExactly(run: Run, i: nat, m: nat)
    requires i < m < |run.calls| && run.ClockAdvances() && run.Grants(i) && run.calls[m].id == run.calls[i].id
    requires run.calls[m].now - run.calls[i].now < run.interval
    ensures run.Grants(m) <==> ClearedSince(run, run.calls[i].id, i, m)
  {
    hide Run.Grants, Run.ClearsAt;
    var id := run.calls[i].id;
    RefusedExactly(run, m);
    if !ClearedSince(run, id, i, m) {
      var p := LastCall(run, id, i, m);
      assert forall c | p < c < m :: !run.ClearsAt(c);
      assert run.calls[i].now <= run.calls[p].now <= run.calls[m].now;
      if !run.Grants(p) {
        RefusedExactly(run, p);
        RefusedDoesNotClear(run, p);
        var k: nat :| k < p && run.Grants(k) && run.calls[k].id == id && forall c | k < c < p :: !run.ClearsAt(c);
        var g := if k < i then i else k;
        assert run.calls[i].now <= run.calls[g].now;
        assert forall c | g < c < m :: !run.ClearsAt(c);
      }
    }
  }

  lemma RefusedDoesNotClear(run: Run, p: nat)
    requires p < |run.calls| && !run.Grants(p)
    ensures !run.ClearsAt(p)
  {
  }

  // ----- How much the bounded table can give away

  /** How many of the calls from `i` up to `j` were granted to a key. */
  function GrantsTo(run: Run, id: nat, i: nat, j: nat): nat
    requires j <= |run.calls|
  {
    if j <= i then 0
    else GrantsTo(run, id, i, j - 1) + if run.calls[j - 1].id == id && run.Grants(j - 1) then 1 else 0
  }

  function ClearsIn(run: Run, i: nat, j: nat): nat
    requires j <= |run.calls|
  {
    if j <= i then 0 else ClearsIn(run, i, j - 1) + if run.ClearsAt(j - 1) then 1 else 0
  }

  /** The last call granted to the key, if there is one, and how many came before it. */
  lemma {:induction false} LastGrant(run: Run, id: nat, i: nat, j: nat) returns (last: Option<nat>)
    requires i <= j <= |run.calls|
    ensures last.None? ==> GrantsTo(run, id, i, j) == 0
    ensures last.Some? ==>
              && i <= last.value < j && run.calls[last.value].id == id && run.Grants(last.value)
              && GrantsTo(run, id, i, j) == GrantsTo(run, id, i, last.value + 1)
    decreases j
  {
    if j == i {
      last := None;
    } else if run.calls[j - 1].id == id && run.Grants(j - 1) {
      last := Some(j - 1);
    } else {
      last := LastGrant(run, id, i, j - 1);
    }
  }

  lemma {:induction false} ClearCounts(run: Run, i: nat, k: nat, j: nat)
    requires i <= k < j <= |run.calls| && run.ClearsAt(k)
    ensures ClearsIn(run, i, j) >= ClearsIn(run, i, k) + 1
    decreases j
  {
    if k < j - 1 {
      ClearCounts(run, i, k, j - 1);
    }
  }

  lemma {:induction false} ClearsGrow(run: Run, i: nat, k: nat, j: nat)
    requires k <= j <= |run.calls|
    ensures ClearsIn(run, i, k) <= ClearsIn(run, i, j)
    decreases j
  {
    if k < j {
      ClearsGrow(run, i, k, j - 1);
    }
  }

  /** Within one interval a key is granted at most one write more than there are clears after the first call. */
  lemma {:induction false} GrantsWithinInterval(run: Run, id: nat, i: nat, j: nat)
    requires i < j <= |run.calls| && run.ClockAdvances()
    requires run.calls[j - 1].now - run.calls[i].now < run.interval
    ensures GrantsTo(run, id, i, j) <= 1 + ClearsIn(run, i + 1, j)
    decreases j
  {
    hide Run.Grants, Run.ClearsAt;
    var last := LastGrant(run, id, i, j);
    if last.Some? && last.value > i {
      var before := LastGrant(run, id, i, last.value);
      if before.Some? {
        var p, q := before.value, last.value;
        GrantsWithinInterval(run, id, i, p + 1);
        EarlyRegrantNeedsClear(run, p, q);
        var k: nat :| p < k < q && run.ClearsAt(k);
        ClearsGrow(run, i + 1, p + 1, k);
        ClearCounts(run, i + 1, k, j);
      }
    }
  }

  /** How many of the calls of a key after `i`, up to `j`, a clear separates from the key's call before. */
  ghost function Reopenings(run: Run, id: nat, i: nat, j: nat): nat
    requires j <= |run.calls|
  {
    if j <= i + 1 then 0
    else
      Reopenings(run, id, i, j - 1)
      + if run.calls[j - 1].id == id && ClearedSince(run, id, i, j - 1) then 1 else 0
  }

  /** So within an interval of a grant the key is granted that write and one for each call that a clear separates. */
  lemma {:induction false} GrantsCounted(run: Run, i: nat, j: nat)
    requires i < j <= |run.calls| && run.ClockAdvances() && run.Grants(i)
    requires run.calls[j - 1].now - run.calls[i].now < run.interval
    ensures GrantsTo(run, run.calls[i].id, i, j) == 1 + Reopenings(run, run.calls[i].id, i, j)
    decreases j
  {
    hide Run.Grants, ClearedSince;
    var id := run.calls[i].id;
    if j == i + 1 {
      assert GrantsTo(run, id, i, i) == 0;
    } else {
      assert run.calls[j - 2].now <= run.calls[j - 1].now;
      GrantsCounted(run, i, j - 1);
      if run.calls[j - 1].id == id {
        GrantedExactly(run, i, j - 1);
      }
    }
  }

  // ----- A run that gives away as much as it can

  /** Key 0 right after every clear, and keys never seen before to fill the table in between. */
  function KeyAt(k: nat): nat {
    if k > CAPACITY && k % CAPACITY == 1 then 0 else k
  }

  /** The first `n` calls, all at one moment. */
  function Greedy(n: nat): Run {
    Run(1, seq(n, k requires 0 <= k < n => Call(KeyAt(k), 0)))
  }

  /** The keys of the calls from `i` up to `j`. */
  function Keys(i: nat, j: nat): set<nat> {
    if j <= i then {} else Keys(i, j - 1) + {KeyAt(j - 1)}
  }

  /** Where the table was last emptied: every `CAPACITY` calls. */
  function LastClear(k: nat): (c: nat)
    ensures k > 0 ==> c < k <= c + CAPACITY
    ensures k == 0 ==> c == 0
  {
    if k == 0 then 0 else (k - 1) / CAPACITY * CAPACITY
  }

  lemma {:induction false} KeysAreOld(i: nat, j: nat)
    ensures forall id | id in Keys(i, j) :: id < j
    decreases j
  {
    if i < j {
      KeysAreOld(i, j - 1);
    }
  }

  /** No call repeats a key of the table. */
  lemma NewKey(k: nat)
    ensures KeyAt(k) !in Keys(LastClear(k), k)
  {
    hide Keys;
    KeysAreOld(LastClear(k), k);
    if KeyAt(k) != k {
      AfterClear(k);
      KeysStep(k - 1, k - 1);
      NoKeys(k - 1);
    }
  }

  lemma AfterClear(k: nat)
    requires k > CAPACITY && k % CAPACITY == 1
    ensures LastClear(k) == k - 1 && KeyAt(k - 1) == k - 1 > 0
  {
    ClearStep(k - 1);
  }

  lemma NoKeys(i: nat)
    ensures Keys(i, i) == {}
  {
  }

  lemma KeysStep(i: nat, j: nat)
    requires i <= j
    ensures Keys(i, j + 1) == Keys(i, j) + {KeyAt(j)}
  {
  }

  lemma ClearStep(k: nat)
    ensures k - LastClear(k) == CAPACITY <==> k > 0 && k % CAPACITY == 0
    ensures LastClear(k + 1) == if k > 0 && k % CAPACITY == 0 then k else LastClear(k)
  {
  }

  ghost predicate HoldsKeys(table: Table, keys: set<nat>, size: nat) {
    table.Keys == keys && |table| == size && forall id | id in table :: table[id] == 0
  }

  lemma {:induction false} GreedyTable(n: nat, k: nat)
    requires k <= n
    ensures HoldsKeys(Greedy(n).TableAt(k), Keys(LastClear(k), k), k - LastClear(k))
    decreases k
  {
    hide Keys, Touched, HoldsKeys;
    if k == 0 {
      NothingHeld();
    } else {
      GreedyTable(n, k - 1);
      GreedyCall(n, k - 1);
    }
  }

  lemma NothingHeld()
    ensures HoldsKeys(map[], Keys(0, 0), 0)
  {
  }

  /** Every call is granted, and every `CAPACITY`-th one clears. */
  lemma GreedyCall(n: nat, k: nat)
    requires k < n && HoldsKeys(Greedy(n).TableAt(k), Keys(LastClear(k), k), k - LastClear(k))
    ensures Greedy(n).Grants(k) && (Greedy(n).ClearsAt(k) <==> k > 0 && k % CAPACITY == 0)
    ensures HoldsKeys(Touched(Greedy(n).TableAt(k), KeyAt(k), 0, 1).0, Keys(LastClear(k + 1), k + 1), k + 1 - LastClear(k + 1))
  {
    hide Keys, KeyAt, LastClear;
    var table := Greedy(n).TableAt(k);
    NewKey(k);
    assert Retained(table, 0, 1) == table;
    KeysStep(LastClear(k), k);
    KeysStep(k, k);
    NoKeys(k);
    ClearStep(k);
    var room := MadeRoom(table, 0, 1);
    assert room[KeyAt(k) := 0].Keys == room.Keys + {KeyAt(k)};
    assert KeyAt(k) !in room;
    AddKey(room, KeyAt(k));
  }

  lemma AddKey(table: Table, id: nat)
    requires id !in table
    ensures |table[id := 0]| == |table| + 1
  {
    assert table[id := 0].Keys == table.Keys + {id};
  }

  /** By call `j` of such a run there were this many clears after the first call, and this many grants to key 0. */
  lemma {:induction false} GreedyCounts(n: nat, j: nat)
    requires j <= n
    ensures ClearsIn(Greedy(n), 1, j) == if j == 0 then 0 else (j - 1) / CAPACITY
    ensures GrantsTo(Greedy(n), 0, 0, j) == if j == 0 then 0 else if j == 1 then 1 else 1 + (j - 2) / CAPACITY
    decreases j
  {
    hide Run.Grants, Run.ClearsAt, Run.TableAt, HoldsKeys, Keys, Touched, LastClear;
    if j > 0 {
      GreedyCounts(n, j - 1);
      GreedyTable(n, j - 1);
      GreedyCall(n, j - 1);
      assert Greedy(n).calls[j - 1].id == KeyAt(j - 1);
      if j > 1 {
        ClearsStep(j - 2);
      }
      if j > 2 {
        ClearsStep(j - 3);
        KeyZero(j - 1);
      }
    }
  }

  lemma KeyZero(k: nat)
    requires k > 1
    ensures KeyAt(k) == 0 <==> (k - 1) % CAPACITY == 0
  {
  }

  lemma ClearsStep(k: nat)
    ensures (k + 1) / CAPACITY == k / CAPACITY + if (k + 1) % CAPACITY == 0 then 1 else 0
  {
    var q, r := k / CAPACITY, k % CAPACITY;
    assert k == CAPACITY * q + r;
    assert k + 1 == if r == CAPACITY - 1 then CAPACITY * (q + 1) else CAPACITY * q + (r + 1);
  }

  /**
   The bound is attained for any number of clears: there is a run, all at one moment, with that many of them and one
   grant more to one key. Two clears allow three writes.
   */
  lemma BoundIsAttained(clears: nat) returns (run: Run)
    ensures run.ClockAdvances() && run.calls != []
    ensures run.calls[|run.calls| - 1].now - run.calls[0].now < run.interval
    ensures ClearsIn(run, 1, |run.calls|) == clears && GrantsTo(run, 0, 0, |run.calls|) == clears + 1
  {
    var n := CAPACITY * clears + 2;
    run := Greedy(n);
    GreedyCounts(n, n);
    LastCounts(clears);
  }

  lemma LastCounts(clears: nat)
    ensures (CAPACITY * clears + 1) / CAPACITY == clears && CAPACITY * clears / CAPACITY == clears
  {
  }
}
