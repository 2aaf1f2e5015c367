/**
 Failure counters with a time window: what the table's list does, one machine per key, and the proof
 that over every run the list answers as those machines do until it has to evict a key.
 */
module FailureWindow {
  import opened Prelude

  type Key = Bytes

  const COUNT_LIMIT: nat := 0xFFFF_FFFF

  datatype Row = Row(key: Key, count: nat, start: int)

  /** The caller's fixed settings: the window, the threshold, and the table's capacity. */
  datatype Settings = Settings(window: int, threshold: nat, capacity: nat)

  // ---------------------------------------------------------------- the list

  function Position(rows: seq<Row>, key: Key): (p: nat)
    ensures p <= |rows|
    ensures p < |rows| ==> rows[p].key == key
    ensures forall i :: 0 <= i < p ==> rows[i].key != key
  {
    if rows == [] then 0
    else if rows[0].key == key then 0
    else
      var p := Position(rows[1..], key);
      assert forall i :: 0 <= i < p + 1 ==> rows[i].key != key by {
        assert forall i :: 1 <= i < |rows| ==> rows[i] == rows[1..][i - 1];
      }
      p + 1
  }

  predicate Elapsed(start: int, now: int, window: int) {
    now - start >= window
  }

  /** Pops the front of the list while its window has elapsed. */
  function Expired(rows: seq<Row>, now: int, window: int): (r: seq<Row>)
    ensures |r| <= |rows| && r == rows[|rows| - |r|..]
  {
    if rows != [] && Elapsed(rows[0].start, now, window) then Expired(rows[1..], now, window) else rows
  }

  function Removed(rows: seq<Row>, p: nat): (r: seq<Row>)
    requires p < |rows|
    ensures |r| == |rows| - 1
  {
    rows[..p] + rows[p + 1..]
  }

  /** A new counter at the back; a full list loses its front first. */
  function Opened(rows: seq<Row>, key: Key, now: int, capacity: nat): seq<Row> {
    (if |rows| >= capacity && rows != [] then rows[1..] else rows) + [Row(key, 1, now)]
  }

  /** One more failure for the counter at `p`; the failure that trips it restarts its window at the back. */
  function Bumped(rows: seq<Row>, p: nat, now: int, threshold: nat): (r: seq<Row>)
    requires p < |rows|
    ensures |r| == |rows|
  {
    var row := rows[p];
    if row.count == COUNT_LIMIT then rows
    else if row.count + 1 == threshold then Removed(rows, p) + [Row(row.key, threshold, now)]
    else rows[p := row.(count := row.count + 1)]
  }

  function Recorded(rows: seq<Row>, key: Key, now: int, s: Settings): seq<Row> {
    var live := Expired(rows, now, s.window);
    var p := Position(live, key);
    if p < |live| then Bumped(live, p, now, s.threshold) else Opened(live, key, now, s.capacity)
  }

  function Cleared(rows: seq<Row>, key: Key): seq<Row> {
    var p := Position(rows, key);
    if p < |rows| then Removed(rows, p) else rows
  }

  // ---------------------------------------------------------------- what the list keeps

  ghost predicate Distinct(rows: seq<Row>) {
    forall i, j :: 0 <= i < j < |rows| ==> rows[i].key != rows[j].key
  }

  ghost predicate Ascending(rows: seq<Row>) {
    forall i, j :: 0 <= i < j < |rows| ==> rows[i].start <= rows[j].start
  }

  predicate RowSound(row: Row, now: int) {
    row.start <= now && 1 <= row.count <= COUNT_LIMIT
  }

  ghost predicate Sound(rows: seq<Row>, now: int) {
    forall i :: 0 <= i < |rows| ==> RowSound(rows[i], now)
  }

  /** One counter per key, ordered by window start, within capacity, no start after the clock. */
  ghost predicate Invariant(rows: seq<Row>, now: int, capacity: nat) {
    Distinct(rows) && Ascending(rows) && Sound(rows, now) && |rows| <= capacity
  }

  lemma InvariantLater(rows: seq<Row>, now: int, later: int, capacity: nat)
    requires Invariant(rows, now, capacity) && now <= later
    ensures Invariant(rows, later, capacity)
  {
    assert forall i :: 0 <= i < |rows| && RowSound(rows[i], now) ==> RowSound(rows[i], later);
  }

  lemma DroppedKeeps(rows: seq<Row>, now: int, capacity: nat, n: nat)
    requires Invariant(rows, now, capacity) && n <= |rows|
    ensures Invariant(rows[n..], now, capacity)
  {
  }

  lemma RemovedKeeps(rows: seq<Row>, now: int, capacity: nat, p: nat)
    requires Invariant(rows, now, capacity) && p < |rows|
    ensures Invariant(Removed(rows, p), now, capacity)
    ensures forall i :: 0 <= i < |rows| - 1 ==> Removed(rows, p)[i].key != rows[p].key
  {
    var r := Removed(rows, p);
    assert forall i :: 0 <= i < |r| ==> r[i] == rows[if i < p then i else i + 1];
  }

  lemma AppendedKeeps(rows: seq<Row>, now: int, capacity: nat, row: Row)
    requires Invariant(rows, now, capacity) && |rows| < capacity
    requires RowSound(row, now) && row.start == now
    requires forall i :: 0 <= i < |rows| ==> rows[i].key != row.key
    ensures Invariant(rows + [row], now, capacity)
  {
    var r := rows + [row];
    assert forall i :: 0 <= i < |rows| ==> r[i] == rows[i] && RowSound(rows[i], now);
  }

  lemma ExpiredKeeps(rows: seq<Row>, now: int, capacity: nat, window: int)
    requires Invariant(rows, now, capacity)
    ensures Invariant(Expired(rows, now, window), now, capacity)
  {
    DroppedKeeps(rows, now, capacity, |rows| - |Expired(rows, now, window)|);
  }

  lemma OpenedKeeps(rows: seq<Row>, now: int, capacity: nat, key: Key)
    requires Invariant(rows, now, capacity) && capacity >= 1 && Position(rows, key) == |rows|
    ensures Invariant(Opened(rows, key, now, capacity), now, capacity)
  {
    var kept := if |rows| >= capacity && rows != [] then rows[1..] else rows;
    if |rows| >= capacity {
      DroppedKeeps(rows, now, capacity, 1);
    }
    AppendedKeeps(kept, now, capacity, Row(key, 1, now));
  }

  lemma BumpedKeeps(rows: seq<Row>, now: int, capacity: nat, p: nat, threshold: nat)
    requires Invariant(rows, now, capacity) && p < |rows| && threshold >= 1
    ensures Invariant(Bumped(rows, p, now, threshold), now, capacity)
  {
    var row := rows[p];
    assert RowSound(row, now);
    if row.count + 1 == threshold && row.count != COUNT_LIMIT {
      RemovedKeeps(rows, now, capacity, p);
      AppendedKeeps(Removed(rows, p), now, capacity, Row(row.key, threshold, now));
    }
  }

  lemma RecordedKeeps(rows: seq<Row>, key: Key, now: int, s: Settings)
    requires Invariant(rows, now, s.capacity) && s.capacity >= 1 && s.threshold >= 1
    ensures Invariant(Recorded(rows, key, now, s), now, s.capacity)
  {
    var live := Expired(rows, now, s.window);
    ExpiredKeeps(rows, now, s.capacity, s.window);
    var p := Position(live, key);
    if p < |live| {
      BumpedKeeps(live, now, s.capacity, p, s.threshold);
    } else {
      OpenedKeeps(live, now, s.capacity, key);
    }
  }

  lemma ClearedKeeps(rows: seq<Row>, key: Key, now: int, capacity: nat)
    requires Invariant(rows, now, capacity)
    ensures Invariant(Cleared(rows, key), now, capacity)
  {
    var p := Position(rows, key);
    if p < |rows| {
      RemovedKeeps(rows, now, capacity, p);
    }
  }

  // ---------------------------------------------------------------- one key's machine

  datatype Counter = Idle | Counting(count: nat, start: int)

  function Alive(c: Counter, now: int, window: int): Counter {
    if c.Counting? && Elapsed(c.start, now, window) then Idle else c
  }

  /** A failure opens a window, counts inside it, and restarts it when it reaches the threshold. */
  function Failed(c: Counter, now: int, s: Settings): Counter {
    match Alive(c, now, s.window)
    case Idle => Counting(1, now)
    case Counting(count, start) =>
      if count == COUNT_LIMIT then Counting(count, start)
      else Counting(count + 1, if count + 1 == s.threshold then now else start)
  }

  /** Time left before the key of a live counter may try again. */
  function Remaining(c: Counter, now: int, s: Settings): int {
    if c.Idle? || c.count < s.threshold then 0 else c.start + s.window - now
  }

  function Count(c: Counter): nat {
    if c.Idle? then 0 else c.count
  }

  function Refusal(c: Counter, now: int, s: Settings): int {
    Remaining(Alive(c, now, s.window), now, s)
  }

  function FailureCount(c: Counter, now: int, window: int): nat {
    Count(Alive(c, now, window))
  }

  /** What the list holds for one key. */
  function Lane(rows: seq<Row>, key: Key): Counter {
    var p := Position(rows, key);
    if p < |rows| then Counting(rows[p].count, rows[p].start) else Idle
  }

  lemma LaneAt(rows: seq<Row>, i: nat)
    requires Distinct(rows) && i < |rows|
    ensures Lane(rows, rows[i].key) == Counting(rows[i].count, rows[i].start)
  {
    var p := Position(rows, rows[i].key);
    assert p <= i;
  }

  lemma LaneIdle(rows: seq<Row>, key: Key)
    requires forall i :: 0 <= i < |rows| ==> rows[i].key != key
    ensures Lane(rows, key) == Idle
  {
  }

  /** Rows of other keys come and go without touching a key's lane. */
  lemma LaneFrame(rows: seq<Row>, other: seq<Row>, key: Key)
    requires Distinct(rows) && Distinct(other)
    requires forall i :: 0 <= i < |rows| && rows[i].key == key ==> rows[i] in other
    requires forall i :: 0 <= i < |other| && other[i].key == key ==> other[i] in rows
    ensures Lane(rows, key) == Lane(other, key)
  {
    var p := Position(rows, key);
    var q := Position(other, key);
    if p < |rows| {
      var j :| 0 <= j < |other| && other[j] == rows[p];
      LaneAt(other, j);
    }
  }

  lemma RemovedLane(rows: seq<Row>, p: nat, key: Key)
    requires Distinct(rows) && p < |rows|
    ensures Distinct(Removed(rows, p))
    ensures Lane(Removed(rows, p), key) == if rows[p].key == key then Idle else Lane(rows, key)
  {
    var r := Removed(rows, p);
    assert forall i :: 0 <= i < |r| ==> r[i] == rows[if i < p then i else i + 1];
    if rows[p].key == key {
      LaneIdle(r, key);
    } else {
      forall i | 0 <= i < |rows| && rows[i].key == key ensures rows[i] in r {
        assert i != p && rows[i] == r[if i < p then i else i - 1];
      }
      LaneFrame(rows, r, key);
    }
  }

  lemma LaneNotBeforeFront(rows: seq<Row>, key: Key)
    requires Ascending(rows) && rows != []
    ensures Lane(rows, key).Counting? ==> Lane(rows, key).start >= rows[0].start
  {
  }

  /** Popping the front drops exactly the counters whose window has elapsed. */
  lemma {:induction false} ExpiredLane(rows: seq<Row>, key: Key, now: int, window: int)
    requires Distinct(rows) && Ascending(rows)
    ensures Lane(Expired(rows, now, window), key) == Alive(Lane(rows, key), now, window)
  {
    if rows == [] {
    } else if Elapsed(rows[0].start, now, window) {
      ExpiredLane(rows[1..], key, now, window);
      assert Removed(rows, 0) == rows[1..];
      RemovedLane(rows, 0, key);
      LaneAt(rows, 0);
    } else {
      LaneNotBeforeFront(rows, key);
    }
  }

  /** What is left after popping has no elapsed window. */
  lemma {:induction false} ExpiredFresh(rows: seq<Row>, now: int, window: int)
    requires Distinct(rows) && Ascending(rows)
    ensures var live := Expired(rows, now, window);
            Distinct(live) && Ascending(live) && (live != [] ==> !Elapsed(live[0].start, now, window))
  {
    if rows != [] && Elapsed(rows[0].start, now, window) {
      ExpiredFresh(rows[1..], now, window);
    }
  }

  lemma AppendedLane(rows: seq<Row>, row: Row, key: Key)
    requires Distinct(rows) && forall i :: 0 <= i < |rows| ==> rows[i].key != row.key
    ensures Lane(rows + [row], key) == if row.key == key then Counting(row.count, row.start) else Lane(rows, key)
  {
    var r := rows + [row];
    assert Distinct(r);
    if row.key == key {
      LaneAt(r, |rows|);
    } else {
      assert forall i :: 0 <= i < |rows| ==> r[i] == rows[i];
      LaneFrame(rows, r, key);
    }
  }

  lemma UpdatedLane(rows: seq<Row>, p: nat, row: Row, key: Key)
    requires Distinct(rows) && p < |rows| && row.key == rows[p].key
    ensures Lane(rows[p := row], key) == if row.key == key then Counting(row.count, row.start) else Lane(rows, key)
  {
    var r := rows[p := row];
    assert Distinct(r);
    if row.key == key {
      LaneAt(r, p);
    } else {
      assert forall i :: 0 <= i < |rows| && i != p ==> r[i] == rows[i];
      LaneFrame(rows, r, key);
    }
  }

  /** The key a failure pushes out of a full table. */
  function Evicted(rows: seq<Row>, key: Key, now: int, s: Settings): set<Key> {
    var live := Expired(rows, now, s.window);
    if Position(live, key) == |live| && |live| >= s.capacity && live != [] then {live[0].key} else {}
  }

  /** The key has no counter in the list. */
  ghost predicate Absent(rows: seq<Row>, key: Key) {
    forall i :: 0 <= i < |rows| ==> rows[i].key != key
  }

  /** The key's counter is in the list and no other has an earlier start. */
  ghost predicate Oldest(rows: seq<Row>, key: Key) {
    Lane(rows, key).Counting? && forall i :: 0 <= i < |rows| ==> Lane(rows, key).start <= rows[i].start
  }

  lemma FrontIsOldest(rows: seq<Row>)
    requires Ascending(rows) && rows != []
    ensures Oldest(rows, rows[0].key)
  {
    assert Position(rows, rows[0].key) == 0;
    assert forall i :: 0 < i < |rows| ==> rows[0].start <= rows[i].start;
  }

  lemma AbsentIs(rows: seq<Row>, key: Key)
    ensures Absent(rows, key) <==> Position(rows, key) == |rows|
  {
  }

  lemma TailAscends(rows: seq<Row>, n: nat)
    requires Ascending(rows) && n <= |rows|
    ensures Ascending(rows[n..])
  {
  }

  /**
   A failure evicts a key only when its own key has no live counter and the live ones fill the table: then one
   key, whose window is the oldest.
   */
  lemma EvictsOldest(rows: seq<Row>, key: Key, now: int, s: Settings)
    requires Ascending(rows)
    ensures var live := Expired(rows, now, s.window);
            Evicted(rows, key, now, s) != {} <==> Absent(live, key) && |live| >= s.capacity && live != []
    ensures forall k :: k in Evicted(rows, key, now, s) ==>
            Evicted(rows, key, now, s) == {k} && Oldest(Expired(rows, now, s.window), k)
  {
    var live := Expired(rows, now, s.window);
    AbsentIs(live, key);
    TailAscends(rows, |rows| - |live|);
    if live != [] {
      FrontIsOldest(live);
      assert live[0].key in {live[0].key};
    }
  }

  lemma BumpedLane(rows: seq<Row>, p: nat, now: int, s: Settings, key: Key)
    requires Distinct(rows) && p < |rows| && !Elapsed(rows[p].start, now, s.window)
    ensures Lane(Bumped(rows, p, now, s.threshold), key)
         == if rows[p].key == key then Failed(Lane(rows, key), now, s) else Lane(rows, key)
  {
    LaneAt(rows, p);
    var row := rows[p];
    if row.count == COUNT_LIMIT {
    } else if row.count + 1 == s.threshold {
      RemovedLane(rows, p, key);
      RemovedLane(rows, p, row.key);
      var r := Removed(rows, p);
      assert forall i :: 0 <= i < |r| ==> r[i] == rows[if i < p then i else i + 1];
      AppendedLane(r, Row(row.key, s.threshold, now), key);
    } else {
      UpdatedLane(rows, p, row.(count := row.count + 1), key);
    }
  }

  lemma OpenedLane(rows: seq<Row>, key: Key, now: int, capacity: nat, k: Key)
    requires Distinct(rows) && Position(rows, key) == |rows|
    requires rows != [] && |rows| >= capacity ==> k != rows[0].key
    ensures Lane(Opened(rows, key, now, capacity), k) == if k == key then Counting(1, now) else Lane(rows, k)
  {
    var row := Row(key, 1, now);
    if |rows| >= capacity && rows != [] {
      assert Removed(rows, 0) == rows[1..];
      RemovedLane(rows, 0, k);
      AppendedLane(rows[1..], row, k);
    } else {
      AppendedLane(rows, row, k);
    }
  }

  lemma FailedAlive(c: Counter, now: int, s: Settings)
    ensures Failed(Alive(c, now, s.window), now, s) == Failed(c, now, s)
  {
  }

  lemma BumpsLane(rows: seq<Row>, live: seq<Row>, key: Key, now: int, s: Settings, k: Key)
    requires live == Expired(rows, now, s.window) && Distinct(live) && Position(live, key) < |live|
    requires !Elapsed(live[Position(live, key)].start, now, s.window)
    ensures Lane(Recorded(rows, key, now, s), k) == if k == key then Failed(Lane(live, key), now, s) else Lane(live, k)
  {
    BumpedLane(live, Position(live, key), now, s, k);
  }

  lemma OpensLane(rows: seq<Row>, live: seq<Row>, key: Key, now: int, s: Settings, k: Key)
    requires live == Expired(rows, now, s.window) && Distinct(live) && Position(live, key) == |live|
    requires k !in Evicted(rows, key, now, s)
    ensures Lane(Recorded(rows, key, now, s), k) == if k == key then Counting(1, now) else Lane(live, k)
  {
    OpenedLane(live, key, now, s.capacity, k);
  }

  /** A failure moves its own key's machine and leaves every other key's, except the evicted one's. */
  lemma RecordedLane(rows: seq<Row>, key: Key, now: int, s: Settings, k: Key)
    requires Distinct(rows) && Ascending(rows) && k !in Evicted(rows, key, now, s)
    ensures Lane(Recorded(rows, key, now, s), k)
         == if k == key then Failed(Lane(rows, key), now, s) else Alive(Lane(rows, k), now, s.window)
  {
    var live := Expired(rows, now, s.window);
    ExpiredLane(rows, k, now, s.window);
    ExpiredLane(rows, key, now, s.window);
    ExpiredFresh(rows, now, s.window);
    var p := Position(live, key);
    if p < |live| {
      assert live[0].start <= live[p].start;
      BumpsLane(rows, live, key, now, s, k);
      FailedAlive(Lane(rows, key), now, s);
    } else {
      OpensLane(rows, live, key, now, s, k);
    }
  }

  lemma ClearedLane(rows: seq<Row>, key: Key, k: Key)
    requires Distinct(rows)
    ensures Lane(Cleared(rows, key), k) == if k == key then Idle else Lane(rows, k)
  {
    var p := Position(rows, key);
    if p < |rows| {
      RemovedLane(rows, p, k);
    }
  }
}
