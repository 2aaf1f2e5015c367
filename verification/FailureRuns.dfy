/** Whole runs of the failure table against one independent machine per key. */
module FailureRuns {
  import opened Prelude
  import opened SortedLists
  import opened FailureWindow

  datatype Op =
    | Record(key: Key, now: int)
    | Lockout(key: Key, now: int)
    | Failures(key: Key, now: int)
    | Clear(key: Key)

  function Last(ops: seq<Op>): Op
    requires ops != []
  {
    ops[|ops| - 1]
  }

  function Init(ops: seq<Op>): seq<Op>
    requires ops != []
  {
    ops[..|ops| - 1]
  }

  // ---------------------------------------------------------------- the table's run

  function Step(rows: seq<Row>, op: Op, s: Settings): seq<Row> {
    match op
    case Record(key, now) => Recorded(rows, key, now, s)
    case Lockout(_, now) => Expired(rows, now, s.window)
    case Failures(_, now) => Expired(rows, now, s.window)
    case Clear(key) => Cleared(rows, key)
  }

  function Table(ops: seq<Op>, s: Settings): seq<Row> {
    if ops == [] then [] else Step(Table(Init(ops), s), Last(ops), s)
  }

  function StepEvicts(rows: seq<Row>, op: Op, s: Settings): set<Key> {
    if op.Record? then Evicted(rows, op.key, op.now, s) else {}
  }

  /** Keys pushed out of a full table and not cleared since. */
  function EvictedKeys(ops: seq<Op>, s: Settings): set<Key> {
    if ops == [] then {}
    else
      EvictedKeys(Init(ops), s) + StepEvicts(Table(Init(ops), s), Last(ops), s)
      - (if Last(ops).Clear? then {Last(ops).key} else {})
  }

  /** What the table answers about a key after a run. */
  function LockoutAnswer(ops: seq<Op>, s: Settings, key: Key, now: int): int {
    Remaining(Lane(Expired(Table(ops, s), now, s.window), key), now, s)
  }

  function FailuresAnswer(ops: seq<Op>, s: Settings, key: Key, now: int): nat {
    Count(Lane(Expired(Table(ops, s), now, s.window), key))
  }

  /** The time of the latest call that read the clock. */
  function Clock(ops: seq<Op>, origin: int): int {
    if ops == [] then origin else if Last(ops).Clear? then Clock(Init(ops), origin) else Last(ops).now
  }

  predicate Ordered(ops: seq<Op>, origin: int) {
    ops != [] ==>
      && Ordered(Init(ops), origin)
      && Clock(Init(ops), origin) <= Clock(ops, origin)
  }

  // ---------------------------------------------------------------- one key's run

  function MachineStep(c: Counter, op: Op, key: Key, s: Settings): Counter {
    if op.key != key then c
    else
      match op
      case Record(_, now) => Failed(c, now, s)
      case Clear(_) => Idle
      case _ => c
  }

  /** The machine of one key sees only the calls that name it. */
  function Machine(ops: seq<Op>, key: Key, s: Settings): Counter {
    if ops == [] then Idle else MachineStep(Machine(Init(ops), key, s), Last(ops), key, s)
  }

  predicate Usable(s: Settings) {
    s.capacity >= 1 && 1 <= s.threshold <= 0xFFFF_FFFF
  }

  // ---------------------------------------------------------------- the invariant over every run

  lemma StepKeeps(rows: seq<Row>, op: Op, clock: int, s: Settings)
    requires Usable(s) && Invariant(rows, clock, s.capacity)
    requires !op.Clear? ==> clock <= op.now
    ensures Invariant(Step(rows, op, s), if op.Clear? then clock else op.now, s.capacity)
  {
    match op
    case Record(key, now) =>
      InvariantLater(rows, clock, now, s.capacity);
      RecordedKeeps(rows, key, now, s);
    case Lockout(_, now) =>
      InvariantLater(rows, clock, now, s.capacity);
      ExpiredKeeps(rows, now, s.capacity, s.window);
    case Failures(_, now) =>
      InvariantLater(rows, clock, now, s.capacity);
      ExpiredKeeps(rows, now, s.capacity, s.window);
    case Clear(key) =>
      ClearedKeeps(rows, key, clock, s.capacity);
  }

  /** After every run the table is ordered by window start, has one counter per key and fits its capacity. */
  lemma {:induction false} RunKeepsInvariant(ops: seq<Op>, origin: int, s: Settings)
    requires Usable(s) && Ordered(ops, origin)
    ensures Invariant(Table(ops, s), Clock(ops, origin), s.capacity)
  {
    if ops != [] {
      RunKeepsInvariant(Init(ops), origin, s);
      StepKeeps(Table(Init(ops), s), Last(ops), Clock(Init(ops), origin), s);
    }
  }

  // ---------------------------------------------------------------- refinement

  /** The table holds the machine's counter, or nothing once that counter's window has elapsed. */
  predicate Agrees(held: Counter, machine: Counter, clock: int, window: int) {
    held == machine || (held.Idle? && Alive(machine, clock, window).Idle?)
  }

  /** Agreement is kept by the passing of time, by expiry and by a failure. */
  lemma CountersAgree(held: Counter, machine: Counter, clock: int, now: int, s: Settings)
    requires Agrees(held, machine, clock, s.window) && clock <= now
    ensures Agrees(Alive(held, now, s.window), machine, now, s.window)
    ensures Failed(held, now, s) == Failed(machine, now, s)
  {
  }

  lemma RecordAgrees(rows: seq<Row>, machine: Counter, op: Op, clock: int, s: Settings, key: Key)
    requires op.Record? && Distinct(rows) && Ascending(rows) && clock <= op.now
    requires key !in Evicted(rows, op.key, op.now, s) && Agrees(Lane(rows, key), machine, clock, s.window)
    ensures Agrees(Lane(Recorded(rows, op.key, op.now, s), key), MachineStep(machine, op, key, s), op.now, s.window)
  {
    CountersAgree(Lane(rows, key), machine, clock, op.now, s);
    RecordedLane(rows, op.key, op.now, s, key);
  }

  lemma ExpiryAgrees(rows: seq<Row>, machine: Counter, now: int, clock: int, s: Settings, key: Key)
    requires Distinct(rows) && Ascending(rows) && clock <= now
    requires Agrees(Lane(rows, key), machine, clock, s.window)
    ensures Agrees(Lane(Expired(rows, now, s.window), key), machine, now, s.window)
  {
    CountersAgree(Lane(rows, key), machine, clock, now, s);
    ExpiredLane(rows, key, now, s.window);
  }

  lemma StepAgrees(rows: seq<Row>, machine: Counter, op: Op, clock: int, s: Settings, key: Key)
    requires Distinct(rows) && Ascending(rows) && (!op.Clear? ==> clock <= op.now)
    requires key !in StepEvicts(rows, op, s)
    requires Agrees(Lane(rows, key), machine, clock, s.window) || (op.Clear? && op.key == key)
    ensures Agrees(Lane(Step(rows, op, s), key), MachineStep(machine, op, key, s),
                   if op.Clear? then clock else op.now, s.window)
  {
    match op
    case Record(_, _) => RecordAgrees(rows, machine, op, clock, s, key);
    case Lockout(_, now) => ExpiryAgrees(rows, machine, now, clock, s, key);
    case Failures(_, now) => ExpiryAgrees(rows, machine, now, clock, s, key);
    case Clear(k) => ClearedLane(rows, k, key);
  }

  lemma {:induction false} RunAgrees(ops: seq<Op>, origin: int, s: Settings, key: Key)
    requires Usable(s) && Ordered(ops, origin) && key !in EvictedKeys(ops, s)
    ensures Agrees(Lane(Table(ops, s), key), Machine(ops, key, s), Clock(ops, origin), s.window)
  {
    if ops != [] {
      var before := Init(ops);
      var op := Last(ops);
      RunKeepsInvariant(before, origin, s);
      if !(op.Clear? && op.key == key) {
        RunAgrees(before, origin, s, key);
      }
      StepAgrees(Table(before, s), Machine(before, key, s), op, Clock(before, origin), s, key);
    }
  }

  /**
   Until a key is evicted the table answers both questions about it exactly as the key's own machine,
   which never sees another key.
   */
  lemma AnswersAgree(ops: seq<Op>, origin: int, s: Settings, key: Key, now: int)
    requires Usable(s) && Ordered(ops, origin) && Clock(ops, origin) <= now && key !in EvictedKeys(ops, s)
    ensures LockoutAnswer(ops, s, key, now) == Refusal(Machine(ops, key, s), now, s)
    ensures FailuresAnswer(ops, s, key, now) == FailureCount(Machine(ops, key, s), now, s.window)
  {
    RunKeepsInvariant(ops, origin, s);
    RunAgrees(ops, origin, s, key);
    ExpiredLane(Table(ops, s), key, now, s.window);
  }

  // ---------------------------------------------------------------- lockout

  function FailuresOf(ops: seq<Op>, key: Key): nat {
    if ops == [] then 0
    else FailuresOf(Init(ops), key) + if Last(ops).Record? && Last(ops).key == key then 1 else 0
  }

  /** The last call is the failure that brings the key to the threshold. */
  predicate Trips(ops: seq<Op>, key: Key, s: Settings) {
    && ops != [] && Last(ops).Record? && Last(ops).key == key
    && FailureCount(Machine(Init(ops), key, s), Last(ops).now, s.window) + 1 == s.threshold
  }

  predicate NeverCleared(ops: seq<Op>, key: Key) {
    forall i :: 0 <= i < |ops| ==> !(ops[i].Clear? && ops[i].key == key)
  }

  predicate NoFailureFrom(ops: seq<Op>, key: Key, time: int) {
    forall i :: 0 <= i < |ops| && ops[i].Record? && ops[i].key == key ==> ops[i].now < time
  }

  lemma InitOfConcat(ops: seq<Op>, more: seq<Op>)
    requires more != []
    ensures Init(ops + more) == ops + Init(more) && Last(ops + more) == Last(more)
  {
  }

  /** While the window runs, later calls leave the tripped counter's start alone and its count at the threshold. */
  lemma {:induction false} TrippedStays(ops: seq<Op>, more: seq<Op>, origin: int, s: Settings, key: Key)
    requires Usable(s) && Trips(ops, key, s)
    requires Ordered(ops + more, origin) && NeverCleared(more, key)
    requires NoFailureFrom(more, key, Last(ops).now + s.window)
    ensures var c := Machine(ops + more, key, s);
            c.Counting? && s.threshold <= c.count <= COUNT_LIMIT && c.start == Last(ops).now
  {
    if more == [] {
      assert ops + more == ops;
    } else {
      InitOfConcat(ops, more);
      TrippedStays(ops, Init(more), origin, s, key);
      assert !(Last(more).Clear? && Last(more).key == key);
      assert Last(more).Record? && Last(more).key == key ==> Last(more).now < Last(ops).now + s.window;
    }
  }

  lemma {:induction false} TimesWithinClock(ops: seq<Op>, more: seq<Op>, origin: int, key: Key, time: int)
    requires Ordered(ops + more, origin) && Clock(ops + more, origin) < time
    ensures NoFailureFrom(more, key, time)
  {
    if more != [] {
      InitOfConcat(ops, more);
      TimesWithinClock(ops, Init(more), origin, key, time);
      assert forall i :: 0 <= i < |more| - 1 ==> more[i] == Init(more)[i];
    }
  }

  /**
   A key tripped at t is refused for exactly t + window - now while now < t + window, whatever any key
   does meanwhile short of clearing or evicting this one; once t + window has come it is not refused
   until it fails again.
   */
  lemma TrippedKeyIsRefused(ops: seq<Op>, more: seq<Op>, origin: int, s: Settings, key: Key, now: int)
    requires Usable(s) && Trips(ops, key, s)
    requires Ordered(ops + more, origin) && Clock(ops + more, origin) <= now
    requires NeverCleared(more, key) && key !in EvictedKeys(ops + more, s)
    requires now < Last(ops).now + s.window || NoFailureFrom(more, key, Last(ops).now + s.window)
    ensures var until := Last(ops).now + s.window;
            LockoutAnswer(ops + more, s, key, now) == if now < until then until - now else 0
  {
    var until := Last(ops).now + s.window;
    AnswersAgree(ops + more, origin, s, key, now);
    if now < until {
      TimesWithinClock(ops, more, origin, key, until);
    }
    TrippedStays(ops, more, origin, s, key);
    TrippedRefusal(Machine(ops + more, key, s), now, s);
  }

  lemma TrippedRefusal(c: Counter, now: int, s: Settings)
    requires c.Counting? && c.count >= s.threshold
    ensures Refusal(c, now, s) == if now < c.start + s.window then c.start + s.window - now else 0
  {
  }

  /** The last call is a failure that finds no live counter of its key: it opens a window. */
  predicate OpensWindow(ops: seq<Op>, key: Key, s: Settings) {
    && ops != [] && Last(ops).Record? && Last(ops).key == key
    && FailureCount(Machine(Init(ops), key, s), Last(ops).now, s.window) == 0
  }

  lemma {:induction false} CountsAreReal(ops: seq<Op>, key: Key, s: Settings)
    ensures Machine(ops, key, s).Counting? ==> Machine(ops, key, s).count >= 1
  {
    if ops != [] {
      CountsAreReal(Init(ops), key, s);
    }
  }

  /** Short of the threshold, the counter is the number of failures since its window opened. */
  lemma {:induction false} WindowCounts(ops: seq<Op>, more: seq<Op>, s: Settings, key: Key)
    requires Usable(s) && OpensWindow(ops, key, s)
    requires NeverCleared(more, key) && NoFailureFrom(more, key, Last(ops).now + s.window)
    requires FailuresOf(more, key) + 1 < s.threshold
    ensures Machine(ops + more, key, s) == Counting(FailuresOf(more, key) + 1, Last(ops).now)
  {
    if more == [] {
      assert ops + more == ops;
      CountsAreReal(Init(ops), key, s);
    } else {
      InitOfConcat(ops, more);
      WindowCounts(ops, Init(more), s, key);
      assert !(Last(more).Clear? && Last(more).key == key);
      assert Last(more).Record? && Last(more).key == key ==> Last(more).now < Last(ops).now + s.window;
    }
  }

  /**
   Until a key is evicted or cleared, the failures it is reported to have are those since its window opened,
   short of the threshold, while now is before the opening plus the window; from then on they are none.
   */
  lemma WindowAnswers(ops: seq<Op>, more: seq<Op>, origin: int, s: Settings, key: Key, now: int)
    requires Usable(s) && OpensWindow(ops, key, s) && FailuresOf(more, key) + 1 < s.threshold
    requires NeverCleared(more, key) && NoFailureFrom(more, key, Last(ops).now + s.window)
    requires Ordered(ops + more, origin) && Clock(ops + more, origin) <= now && key !in EvictedKeys(ops + more, s)
    ensures FailuresAnswer(ops + more, s, key, now) == if now < Last(ops).now + s.window then FailuresOf(more, key) + 1 else 0
  {
    AnswersAgree(ops + more, origin, s, key, now);
    WindowCounts(ops, more, s, key);
  }

  /** The first failure at or after the opening plus the window opens the next window. */
  lemma WindowReopens(ops: seq<Op>, more: seq<Op>, now: int, s: Settings, key: Key)
    requires Usable(s) && OpensWindow(ops, key, s) && FailuresOf(more, key) + 1 < s.threshold
    requires NeverCleared(more, key) && NoFailureFrom(more, key, Last(ops).now + s.window)
    requires now >= Last(ops).now + s.window
    ensures OpensWindow(ops + more + [Record(key, now)], key, s)
  {
    WindowCounts(ops, more, s, key);
    var all := ops + more + [Record(key, now)];
    assert Init(all) == ops + more && Last(all) == Record(key, now);
  }

  /** A live counter counts on up to 2^32 - 1 and stays there. */
  lemma CounterSaturates(count: nat, start: int, now: int, s: Settings)
    requires now < start + s.window && s.threshold <= count <= 0xFFFF_FFFF
    ensures Failed(Counting(count, start), now, s) == Counting(if count < 0xFFFF_FFFF then count + 1 else count, start)
  {
  }

  /** The failure that is the threshold's within its window trips the key. */
  lemma ThresholdTrips(ops: seq<Op>, more: seq<Op>, now: int, s: Settings, key: Key)
    requires Usable(s) && OpensWindow(ops, key, s)
    requires NeverCleared(more, key) && NoFailureFrom(more, key, Last(ops).now + s.window)
    requires FailuresOf(more, key) + 2 == s.threshold && now < Last(ops).now + s.window
    ensures Trips(ops + more + [Record(key, now)], key, s)
  {
    WindowCounts(ops, more, s, key);
    var all := ops + more + [Record(key, now)];
    assert Init(all) == ops + more && Last(all) == Record(key, now);
  }

  /** No counter exceeds the failures recorded for its key. */
  lemma {:induction false} CountIsEarned(ops: seq<Op>, key: Key, s: Settings)
    ensures Machine(ops, key, s).Counting? ==> Machine(ops, key, s).count <= FailuresOf(ops, key)
    ensures FailuresOf(ops, key) >= 0
  {
    if ops != [] {
      CountIsEarned(Init(ops), key, s);
    }
  }

  /** A key is never refused with fewer than `threshold` failures. */
  lemma RefusedOnlyAtThreshold(ops: seq<Op>, origin: int, s: Settings, key: Key, now: int)
    requires Usable(s) && Ordered(ops, origin) && Clock(ops, origin) <= now && key !in EvictedKeys(ops, s)
    ensures FailuresOf(ops, key) < s.threshold ==> LockoutAnswer(ops, s, key, now) == 0
  {
    AnswersAgree(ops, origin, s, key, now);
    CountIsEarned(ops, key, s);
  }

  // ---------------------------------------------------------------- eviction needs a crowd

  function FailedKeys(ops: seq<Op>): set<Key> {
    if ops == [] then {} else FailedKeys(Init(ops)) + if Last(ops).Record? then {Last(ops).key} else {}
  }

  ghost function KeysOf(rows: seq<Row>): set<Key> {
    set i | 0 <= i < |rows| :: rows[i].key
  }

  lemma {:induction false} DistinctKeyCount(rows: seq<Row>)
    requires Distinct(rows)
    ensures |KeysOf(rows)| == |rows|
  {
    if rows != [] {
      var n := |rows| - 1;
      DistinctKeyCount(rows[..n]);
      assert forall i :: 0 <= i < n ==> rows[..n][i] == rows[i];
      assert KeysOf(rows) == KeysOf(rows[..n]) + {rows[n].key};
      assert rows[n].key !in KeysOf(rows[..n]);
    }
  }

  ghost predicate KeysWithin(rows: seq<Row>, keys: set<Key>) {
    forall i :: 0 <= i < |rows| ==> rows[i].key in keys
  }

  lemma BumpedKeysWithin(rows: seq<Row>, p: nat, now: int, threshold: nat, keys: set<Key>)
    requires p < |rows| && KeysWithin(rows, keys)
    ensures KeysWithin(Bumped(rows, p, now, threshold), keys) && KeysWithin(Removed(rows, p), keys)
  {
    var r := Removed(rows, p);
    assert forall i :: 0 <= i < |r| ==> r[i] == rows[if i < p then i else i + 1];
  }

  lemma StepKeysWithin(rows: seq<Row>, op: Op, s: Settings, keys: set<Key>)
    requires KeysWithin(rows, keys) && (op.Record? ==> op.key in keys)
    ensures KeysWithin(Step(rows, op, s), keys)
  {
    if op.Record? {
      var live := Expired(rows, op.now, s.window);
      assert KeysWithin(live, keys);
      var p := Position(live, op.key);
      if p < |live| {
        BumpedKeysWithin(live, p, op.now, s.threshold, keys);
      }
    } else if op.Clear? {
      var p := Position(rows, op.key);
      if p < |rows| {
        BumpedKeysWithin(rows, p, 0, s.threshold, keys);
      }
    }
  }

  lemma {:induction false} TableKeysWithin(ops: seq<Op>, s: Settings)
    ensures KeysWithin(Table(ops, s), FailedKeys(ops))
  {
    if ops != [] {
      TableKeysWithin(Init(ops), s);
      StepKeysWithin(Table(Init(ops), s), Last(ops), s, FailedKeys(ops));
    }
  }

  /** A key outside a list of distinct keys makes one more key than the list is long. */
  lemma CrowdBound(rows: seq<Row>, key: Key, keys: set<Key>)
    requires Distinct(rows) && KeysWithin(rows, keys) && key in keys
    requires forall i :: 0 <= i < |rows| ==> rows[i].key != key
    ensures |rows| < |keys|
  {
    DistinctKeyCount(rows);
    var held := KeysOf(rows);
    assert key !in held && held <= keys - {key};
    SubsetSize(held, keys - {key});
  }

  lemma EvictionNeedsCrowd(rows: seq<Row>, key: Key, now: int, s: Settings, keys: set<Key>)
    requires Distinct(rows) && KeysWithin(rows, keys) && key in keys && |keys| <= s.capacity
    ensures Evicted(rows, key, now, s) == {}
  {
    var live := Expired(rows, now, s.window);
    if Position(live, key) == |live| {
      assert Distinct(live) && KeysWithin(live, keys);
      CrowdBound(live, key, keys);
    }
  }

  lemma {:induction false} FailedKeysGrow(ops: seq<Op>)
    requires ops != []
    ensures |FailedKeys(Init(ops))| <= |FailedKeys(ops)|
  {
    SubsetSize(FailedKeys(Init(ops)), FailedKeys(ops));
  }

  /** A run in which no more keys fail than the table holds never evicts one. */
  lemma {:induction false} NothingEvictedWithinCapacity(ops: seq<Op>, origin: int, s: Settings)
    requires Usable(s) && Ordered(ops, origin) && |FailedKeys(ops)| <= s.capacity
    ensures EvictedKeys(ops, s) == {}
  {
    if ops != [] {
      FailedKeysGrow(ops);
      NothingEvictedWithinCapacity(Init(ops), origin, s);
      RunKeepsInvariant(Init(ops), origin, s);
      TableKeysWithin(Init(ops), s);
      if Last(ops).Record? {
        EvictionNeedsCrowd(Table(Init(ops), s), Last(ops).key, Last(ops).now, s, FailedKeys(ops));
      }
    }
  }
}
