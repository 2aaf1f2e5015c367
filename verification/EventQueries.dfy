/** Reading the event table: a room's rows against the whole-table walk, and the search by timestamp. */
module EventQueries {
  import opened Prelude
  import opened SortedLists
  import opened EventIndex
  import opened EventInsert
  import opened EventErase
  import opened EventModify

  // ---------------------------------------------------------------- a room's rows, in stream order

  function InRoom(ks: seq<RowKey>, r: Bytes): nat -> Option<nat> {
    (p: nat) => if p < |ks| && ks[p].room == r then Some(p) else None
  }

  /** The rows of room `r` that a walk of the whole table in stream order visits. */
  function RoomWalk(t: Index, r: Bytes): seq<nat> {
    FilterMap(InRoom(t.ks, r), t.streamOrder)
  }

  lemma RoomWalkListed(t: Index, r: Bytes)
    requires Consistent(t)
    ensures StreamList(t.ks, Some(r), RoomWalk(t, r)) && TiesAsAdded(t.ks, RoomWalk(t, r))
  {
    var f, s := InRoom(t.ks, r), t.streamOrder;
    var lt := ByOrder(t.ks);
    FilterMapPairwise(f, (p: nat, q: nat) => p != q, (p: nat, q: nat) => p != q, s);
    FilterMapPairwise(f, (p: nat, q: nat) => !lt(q, p), (p: nat, q: nat) => !lt(q, p), s);
    FilterMapPairwise(f, (p: nat, q: nat) => !lt(p, q) ==> p < q, (p: nat, q: nat) => !lt(p, q) ==> p < q, s);
    FilterMapElements(f, s);
    forall p: nat ensures p in RoomWalk(t, r) <==> Selected(t.ks, Some(r), p) {
      if Selected(t.ks, Some(r), p) {
        assert p in s;
        var i :| 0 <= i < |s| && s[i] == p;
        assert f(s[i]) == Some(p);
      }
    }
  }

  /**
   A room's own list is what a walk of the whole table visits of that room exactly when its rows of
   equal stream ordering are listed in the order they were added.
   */
  lemma RoomOrderIsWalk(t: Index, r: Bytes)
    requires Consistent(t)
    ensures Bucket(t.byRoomStream, r) == RoomWalk(t, r) <==> TiesAsAdded(t.ks, Bucket(t.byRoomStream, r))
  {
    RoomWalkListed(t, r);
    var s := Bucket(t.byRoomStream, r);
    assert StreamList(t.ks, Some(r), s);
    if TiesAsAdded(t.ks, s) { StreamListDetermined(t.ks, Some(r), s, RoomWalk(t, r)); }
  }

  lemma OtherRoomTied(t: Index, p: nat, k: RowKey, r: Bytes)
    requires Consistent(t) && AsAdded(t) && p < |t.ks| && SameIdentity(t.ks[p], k) && k.room != t.ks[p].room && r != k.room
    ensures var t' := ModifyRow(t, p, k); TiesAsAdded(t'.ks, Bucket(t'.byRoomStream, r))
  {
    assert TiesAsAdded(t.ks, Bucket(t.byRoomStream, r));
    DroppedStream(t.ks, p, k, t.byRoomStream, r);
  }

  /** A row moved into a room where it ties with a row added after it is listed out of order there, and only there. */
  lemma MovedRowTies(t: Index, p: nat, k: RowKey)
    requires Consistent(t) && AsAdded(t) && p < |t.ks| && SameIdentity(t.ks[p], k) && k.room != t.ks[p].room
    ensures var t' := ModifyRow(t, p, k);
            TiesAsAdded(t'.ks, Bucket(t'.byRoomStream, k.room)) <==> RoomOrderSafe(t.ks, p, k)
  {
    var t' := ModifyRow(t, p, k);
    ModifiedStreamTies(t.ks, p, k, t.byRoomStream);
    forall r ensures r != k.room ==> TiesAsAdded(t'.ks, Bucket(t'.byRoomStream, r)) {
      if r != k.room {
        OtherRoomTied(t, p, k, r);
      }
    }
    OnlyRoom(t'.ks, t'.byRoomStream, k.room);
  }

  lemma OnlyRoom(ks: seq<RowKey>, m: map<Bytes, seq<nat>>, room: Bytes)
    requires forall r :: r != room ==> TiesAsAdded(ks, Bucket(m, r))
    ensures RoomsAsAdded(ks, m) <==> TiesAsAdded(ks, Bucket(m, room))
  {
  }

  /**
   After a row moves to another room, that room's own list is what the whole-table walk visits of it
   exactly when no row of that room with the same stream ordering was added after the moved row.
   */
  lemma MovedRowWalk(t: Index, p: nat, k: RowKey)
    requires Consistent(t) && AsAdded(t) && p < |t.ks| && SameIdentity(t.ks[p], k) && k.room != t.ks[p].room
    ensures var t' := ModifyRow(t, p, k);
            Bucket(t'.byRoomStream, k.room) == RoomWalk(t', k.room) <==> RoomOrderSafe(t.ks, p, k)
  {
    ModifyRowKeeps(t, p, k);
    MovedRowTies(t, p, k);
    RoomOrderIsWalk(ModifyRow(t, p, k), k.room);
  }

  /** The failing case arises: two rows of equal stream ordering, the first moved to the room of the second. */
  lemma MovedRowBreaksWalk(a: RowKey, b: RowKey)
    requires a.id != b.id && a.room != b.room && a.order == b.order
    ensures var t, moved := InsertRows(EMPTY, [a, b]), a.(room := b.room);
            && t.ks == [a, b]
            && Bucket(ModifyRow(t, 0, moved).byRoomStream, b.room) != RoomWalk(ModifyRow(t, 0, moved), b.room)
  {
    var t, moved := InsertRows(EMPTY, [a, b]), a.(room := b.room);
    EmptyKeeps();
    InsertDistinct(EMPTY, [a, b]);
    InsertRowsKeeps(EMPTY, [a, b]);
    assert t.ks == [a, b];
    assert t.ks[1].room == moved.room && t.ks[1].order == moved.order;
    MovedRowWalk(t, 0, moved);
  }

  // ---------------------------------------------------------------- the nearest event to a timestamp

  datatype TimeDirection = Forwards | Backwards

  /** A timeline event of the room on the asked side of `ts`, the boundary included. */
  predicate Candidate(ks: seq<RowKey>, room: Bytes, ts: int, direction: TimeDirection, e: TimeEntry) {
    && Selected(ks, Some(room), e.position) && TimeOf(ks[e.position], e.position) == Some(e)
    && (if direction.Forwards? then e.ts >= ts else e.ts <= ts)
  }

  predicate Nearer(direction: TimeDirection, a: TimeEntry, b: TimeEntry) {
    if direction.Forwards? then Earlier(a, b) else Earlier(b, a)
  }

  /** `passed` are candidates that were refused, nearest first, and no other candidate is nearer than one of them. */
  ghost predicate Passed(ks: seq<RowKey>, room: Bytes, ts: int, direction: TimeDirection, accepts: nat -> bool, passed: seq<TimeEntry>) {
    && (forall i :: 0 <= i < |passed| ==> Candidate(ks, room, ts, direction, passed[i]) && !accepts(passed[i].position))
    && (forall i, j :: 0 <= i < j < |passed| ==> Nearer(direction, passed[i], passed[j]))
    && (forall c, i :: Candidate(ks, room, ts, direction, c) && c !in passed && 0 <= i < |passed| ==> Nearer(direction, passed[i], c))
  }

  datatype NearestByTime = NearestByTime(event: Option<nat>, truncated: bool)

  /** How many leading entries lie strictly before `ts` (and, with `inclusive`, at `ts`). */
  function EntriesBefore(s: seq<TimeEntry>, ts: int, inclusive: bool): (n: nat)
    ensures n <= |s|
    ensures forall i :: 0 <= i < n ==> s[i].ts < ts || (inclusive && s[i].ts == ts)
    ensures n < |s| ==> !(s[n].ts < ts || (inclusive && s[n].ts == ts))
  {
    if s == [] || !(s[0].ts < ts || (inclusive && s[0].ts == ts)) then 0
    else
      assert forall i :: 0 < i < |s| ==> s[i] == s[1..][i - 1];
      1 + EntriesBefore(s[1..], ts, inclusive)
  }

  lemma SplitByTime(s: seq<TimeEntry>, ts: int, inclusive: bool)
    requires Sorted(ByTime(), s)
    ensures var n := EntriesBefore(s, ts, inclusive);
            forall i :: 0 <= i < |s| ==> (i < n <==> s[i].ts < ts || (inclusive && s[i].ts == ts))
  {
    var n := EntriesBefore(s, ts, inclusive);
    forall i | n <= i < |s| ensures !(s[i].ts < ts || (inclusive && s[i].ts == ts)) {
      assert i == n || !Earlier(s[i], s[n]);
    }
  }

  lemma StrictlyAscending(s: seq<TimeEntry>)
    requires NoDup(s) && Sorted(ByTime(), s)
    ensures forall i, j :: 0 <= i < j < |s| ==> Earlier(s[i], s[j])
  {
    forall i, j | 0 <= i < j < |s| ensures Earlier(s[i], s[j]) {
      assert s[i] != s[j];
    }
  }

  function Reversed<T>(s: seq<T>): (r: seq<T>)
    ensures |r| == |s|
    ensures forall i :: 0 <= i < |s| ==> r[i] == s[|s| - 1 - i]
  {
    seq(|s|, i requires 0 <= i < |s| => s[|s| - 1 - i])
  }

  /** `cs` lists the candidates, each once, nearest first. */
  ghost predicate CandidateList(ks: seq<RowKey>, room: Bytes, ts: int, direction: TimeDirection, cs: seq<TimeEntry>) {
    && (forall c :: c in cs <==> Candidate(ks, room, ts, direction, c))
    && (forall i, j :: 0 <= i < j < |cs| ==> Nearer(direction, cs[i], cs[j]))
  }

  lemma ForwardMember(s: seq<TimeEntry>, ts: int, c: TimeEntry)
    requires Sorted(ByTime(), s)
    ensures c in s[EntriesBefore(s, ts, false)..] <==> c in s && c.ts >= ts
  {
    var from := EntriesBefore(s, ts, false);
    SplitByTime(s, ts, false);
    if c in s && c.ts >= ts {
      var i :| 0 <= i < |s| && s[i] == c;
      assert s[from..][i - from] == c;
    }
  }

  lemma ReversedMember<T>(s: seq<T>, c: T)
    ensures c in Reversed(s) <==> c in s
  {
    if c in s {
      var i :| 0 <= i < |s| && s[i] == c;
      assert Reversed(s)[|s| - 1 - i] == c;
    }
  }

  lemma BackwardMember(s: seq<TimeEntry>, ts: int, c: TimeEntry)
    requires Sorted(ByTime(), s)
    ensures c in Reversed(s[..EntriesBefore(s, ts, true)]) <==> c in s && c.ts <= ts
  {
    var to := EntriesBefore(s, ts, true);
    ReversedMember(s[..to], c);
    SplitByTime(s, ts, true);
    if c in s && c.ts <= ts {
      var i :| 0 <= i < |s| && s[i] == c;
      assert s[..to][i] == c;
    }
  }

  lemma ForwardOrdered(s: seq<TimeEntry>, from: nat)
    requires NoDup(s) && Sorted(ByTime(), s) && from <= |s|
    ensures forall i, j :: 0 <= i < j < |s[from..]| ==> Nearer(Forwards, s[from..][i], s[from..][j])
  {
    StrictlyAscending(s);
  }

  lemma ForwardCandidates(ks: seq<RowKey>, room: Bytes, ts: int, s: seq<TimeEntry>)
    requires TimeList(ks, room, s)
    ensures CandidateList(ks, room, ts, Forwards, s[EntriesBefore(s, ts, false)..])
  {
    ForwardOrdered(s, EntriesBefore(s, ts, false));
    forall c ensures c in s[EntriesBefore(s, ts, false)..] <==> Candidate(ks, room, ts, Forwards, c) {
      ForwardMember(s, ts, c);
    }
  }

  lemma BackwardOrdered(s: seq<TimeEntry>, to: nat)
    requires NoDup(s) && Sorted(ByTime(), s) && to <= |s|
    ensures var cs := Reversed(s[..to]); forall i, j :: 0 <= i < j < |cs| ==> Nearer(Backwards, cs[i], cs[j])
  {
    StrictlyAscending(s);
    var cs := Reversed(s[..to]);
    forall i, j | 0 <= i < j < |cs| ensures Nearer(Backwards, cs[i], cs[j]) {
      assert cs[i] == s[to - 1 - i] && cs[j] == s[to - 1 - j];
    }
  }

  lemma BackwardCandidates(ks: seq<RowKey>, room: Bytes, ts: int, s: seq<TimeEntry>)
    requires TimeList(ks, room, s)
    ensures CandidateList(ks, room, ts, Backwards, Reversed(s[..EntriesBefore(s, ts, true)]))
  {
    BackwardOrdered(s, EntriesBefore(s, ts, true));
    forall c ensures c in Reversed(s[..EntriesBefore(s, ts, true)]) <==> Candidate(ks, room, ts, Backwards, c) {
      BackwardMember(s, ts, c);
    }
  }

  /** The outcome of a search that was refused `passed` and may offer at most `cap` events. */
  ghost predicate OutcomeAfter(ks: seq<RowKey>, room: Bytes, ts: int, direction: TimeDirection, accepts: nat -> bool, cap: nat,
                               r: NearestByTime, passed: seq<TimeEntry>)
  {
    && Passed(ks, room, ts, direction, accepts, passed) && |passed| <= cap
    && (r.event.Some? ==>
          && !r.truncated && |passed| < cap && accepts(r.event.value)
          && exists e: TimeEntry :: e.position == r.event.value && Candidate(ks, room, ts, direction, e) && e !in passed
                         && forall c :: Candidate(ks, room, ts, direction, c) && Nearer(direction, c, e) ==> c in passed)
    && (r.event.None? && !r.truncated ==> forall c :: Candidate(ks, room, ts, direction, c) ==> c in passed)
    && (r.truncated ==>
          && r.event.None? && |passed| == cap
          && exists c :: Candidate(ks, room, ts, direction, c) && c !in passed)
  }

  /** What a search that may offer at most `cap` events answers: some run of refusals leads to it. */
  ghost predicate SearchOutcome(ks: seq<RowKey>, room: Bytes, ts: int, direction: TimeDirection, accepts: nat -> bool, cap: nat,
                                r: NearestByTime)
  {
    exists passed :: OutcomeAfter(ks, room, ts, direction, accepts, cap, r, passed)
  }

  lemma NearerIrreflexive(direction: TimeDirection, a: TimeEntry, b: TimeEntry)
    requires Nearer(direction, a, b)
    ensures a != b && !Nearer(direction, b, a)
  {
  }

  /** The first `n` candidates were offered and refused. */
  lemma PassedPrefix(ks: seq<RowKey>, room: Bytes, ts: int, direction: TimeDirection, accepts: nat -> bool, cs: seq<TimeEntry>, n: nat)
    requires CandidateList(ks, room, ts, direction, cs) && n <= |cs|
    requires forall i :: 0 <= i < n ==> !accepts(cs[i].position)
    ensures Passed(ks, room, ts, direction, accepts, cs[..n])
    ensures n < |cs| ==> Candidate(ks, room, ts, direction, cs[n]) && cs[n] !in cs[..n]
    ensures n < |cs| ==> forall c :: Candidate(ks, room, ts, direction, c) && Nearer(direction, c, cs[n]) ==> c in cs[..n]
  {
    var passed := cs[..n];
    forall i | 0 <= i < |cs| ensures Candidate(ks, room, ts, direction, cs[i]) {
      assert cs[i] in cs;
    }
    forall l | 0 <= l < n ensures cs[l] in passed {
      assert passed[l] == cs[l];
    }
    forall c, i | Candidate(ks, room, ts, direction, c) && c !in passed && 0 <= i < |passed|
      ensures Nearer(direction, passed[i], c)
    {
      assert c in cs;
      var j :| 0 <= j < |cs| && cs[j] == c;
    }
    if n < |cs| {
      forall c | Candidate(ks, room, ts, direction, c) && Nearer(direction, c, cs[n]) ensures c in passed {
        assert c in cs;
        var j :| 0 <= j < |cs| && cs[j] == c;
        NearerIrreflexive(direction, c, cs[n]);
        assert passed[j] == c;
      }
    }
  }

  /** What the search may answer after refusing the first `n` candidates. */
  lemma OutcomeAt(ks: seq<RowKey>, room: Bytes, ts: int, direction: TimeDirection, accepts: nat -> bool, cap: nat, cs: seq<TimeEntry>, n: nat)
    requires CandidateList(ks, room, ts, direction, cs) && n <= |cs| && n <= cap
    requires forall i :: 0 <= i < n ==> !accepts(cs[i].position)
    ensures n == |cs| ==> SearchOutcome(ks, room, ts, direction, accepts, cap, NearestByTime(None, false))
    ensures n < |cs| && n == cap ==> SearchOutcome(ks, room, ts, direction, accepts, cap, NearestByTime(None, true))
    ensures n < |cs| && n < cap && accepts(cs[n].position) ==>
            SearchOutcome(ks, room, ts, direction, accepts, cap, NearestByTime(Some(cs[n].position), false))
  {
    PassedPrefix(ks, room, ts, direction, accepts, cs, n);
    if n == |cs| {
      assert OutcomeAfter(ks, room, ts, direction, accepts, cap, NearestByTime(None, false), cs[..n]);
    } else if n == cap {
      assert OutcomeAfter(ks, room, ts, direction, accepts, cap, NearestByTime(None, true), cs[..n]);
    } else if accepts(cs[n].position) {
      assert OutcomeAfter(ks, room, ts, direction, accepts, cap, NearestByTime(Some(cs[n].position), false), cs[..n]);
    }
  }

  method NearestAfter(ks: seq<RowKey>, s: seq<TimeEntry>, room: Bytes, ts: int, accepts: nat -> bool, cap: nat)
    returns (r: NearestByTime)
    requires TimeList(ks, room, s)
    ensures SearchOutcome(ks, room, ts, Forwards, accepts, cap, r)
  {
    var from := EntriesBefore(s, ts, false);
    ghost var cs := s[from..];
    ForwardCandidates(ks, room, ts, s);
    var examined, it := 0, from;
    while it < |s|
      invariant from <= it <= |s| && examined == it - from <= cap
      invariant forall i :: 0 <= i < examined ==> !accepts(cs[i].position)
    {
      OutcomeAt(ks, room, ts, Forwards, accepts, cap, cs, examined);
      if examined == cap {
        return NearestByTime(None, true);
      }
      if accepts(s[it].position) {
        return NearestByTime(Some(s[it].position), false);
      }
      examined := examined + 1;
      it := it + 1;
    }
    OutcomeAt(ks, room, ts, Forwards, accepts, cap, cs, examined);
    return NearestByTime(None, false);
  }

  method NearestBefore(ks: seq<RowKey>, s: seq<TimeEntry>, room: Bytes, ts: int, accepts: nat -> bool, cap: nat)
    returns (r: NearestByTime)
    requires TimeList(ks, room, s)
    ensures SearchOutcome(ks, room, ts, Backwards, accepts, cap, r)
  {
    var to := EntriesBefore(s, ts, true);
    ghost var cs := Reversed(s[..to]);
    BackwardCandidates(ks, room, ts, s);
    var examined, it := 0, to;
    while it != 0
      invariant 0 <= it <= to && examined == to - it <= cap
      invariant forall i :: 0 <= i < examined ==> !accepts(cs[i].position)
    {
      OutcomeAt(ks, room, ts, Backwards, accepts, cap, cs, examined);
      if examined == cap {
        return NearestByTime(None, true);
      }
      it := it - 1;
      assert cs[examined] == s[it];
      if accepts(s[it].position) {
        return NearestByTime(Some(s[it].position), false);
      }
      examined := examined + 1;
    }
    OutcomeAt(ks, room, ts, Backwards, accepts, cap, cs, examined);
    return NearestByTime(None, false);
  }

  /**
   The event nearest `ts` in the room, looking `direction` from it, that `accepts` takes, with at most
   `cap` events offered; `truncated` says the search stopped there with candidates left.
   */
  method Nearest(ks: seq<RowKey>, s: seq<TimeEntry>, room: Bytes, ts: int, direction: TimeDirection,
                 accepts: nat -> bool, cap: nat)
    returns (r: NearestByTime)
    requires TimeList(ks, room, s)
    ensures SearchOutcome(ks, room, ts, direction, accepts, cap, r)
  {
    if direction.Forwards? {
      r := NearestAfter(ks, s, room, ts, accepts, cap);
    } else {
      r := NearestBefore(ks, s, room, ts, accepts, cap);
    }
  }

  // ---------------------------------------------------------------- one answer

  lemma PassedDistinct(ks: seq<RowKey>, room: Bytes, ts: int, direction: TimeDirection, accepts: nat -> bool, passed: seq<TimeEntry>)
    requires Passed(ks, room, ts, direction, accepts, passed)
    ensures NoDup(passed)
  {
    forall i, j | 0 <= i < j < |passed| ensures passed[i] != passed[j] {
      NearerIrreflexive(direction, passed[i], passed[j]);
    }
  }

  /** The nearest accepted event, when the search with fewer refusals than the cap found it. */
  ghost predicate FoundAfter(ks: seq<RowKey>, room: Bytes, ts: int, direction: TimeDirection, accepts: nat -> bool, cap: nat,
                             e: TimeEntry, passed: seq<TimeEntry>)
  {
    && Passed(ks, room, ts, direction, accepts, passed) && |passed| < cap
    && accepts(e.position) && Candidate(ks, room, ts, direction, e) && e !in passed
    && forall c :: Candidate(ks, room, ts, direction, c) && Nearer(direction, c, e) ==> c in passed
  }

  lemma FoundOnce(ks: seq<RowKey>, room: Bytes, ts: int, direction: TimeDirection, accepts: nat -> bool, cap: nat,
                  e: TimeEntry, p: seq<TimeEntry>, f: TimeEntry, q: seq<TimeEntry>)
    requires FoundAfter(ks, room, ts, direction, accepts, cap, e, p)
    requires FoundAfter(ks, room, ts, direction, accepts, cap, f, q)
    ensures e == f
  {
    assert !Nearer(direction, e, f) && !Nearer(direction, f, e);
    assert Candidate(ks, room, ts, direction, e) && Candidate(ks, room, ts, direction, f);
  }

  /** A found event is within the cap, so no run of refusals up to the cap goes past it. */
  lemma FoundNotTruncated(ks: seq<RowKey>, room: Bytes, ts: int, direction: TimeDirection, accepts: nat -> bool, cap: nat,
                          e: TimeEntry, p: seq<TimeEntry>, q: seq<TimeEntry>)
    requires FoundAfter(ks, room, ts, direction, accepts, cap, e, p)
    requires Passed(ks, room, ts, direction, accepts, q)
    ensures |q| < cap
  {
    assert e !in q;
    forall c | c in q ensures c in p {
      var i :| 0 <= i < |q| && q[i] == c;
      assert Nearer(direction, q[i], e);
    }
    PassedDistinct(ks, room, ts, direction, accepts, p);
    PassedDistinct(ks, room, ts, direction, accepts, q);
    NoLonger(q, p);
  }

  /** Refusing every candidate within the cap leaves none over for a truncated search. */
  lemma AllRefusedNotTruncated(ks: seq<RowKey>, room: Bytes, ts: int, direction: TimeDirection, accepts: nat -> bool,
                               p: seq<TimeEntry>, q: seq<TimeEntry>, c: TimeEntry)
    requires Passed(ks, room, ts, direction, accepts, p) && forall d :: Candidate(ks, room, ts, direction, d) ==> d in p
    requires Passed(ks, room, ts, direction, accepts, q) && Candidate(ks, room, ts, direction, c) && c !in q
    ensures |q| < |p|
  {
    PassedDistinct(ks, room, ts, direction, accepts, p);
    PassedDistinct(ks, room, ts, direction, accepts, q);
    forall d | d in q + [c] ensures d in p {
      if d in q {
        var i :| 0 <= i < |q| && q[i] == d;
      }
      assert Candidate(ks, room, ts, direction, d);
    }
    assert NoDup(q + [c]);
    NoLonger(q + [c], p);
  }

  /** The search has exactly one possible answer. */
  lemma SearchDetermined(ks: seq<RowKey>, room: Bytes, ts: int, direction: TimeDirection, accepts: nat -> bool, cap: nat,
                         r: NearestByTime, s: NearestByTime)
    requires SearchOutcome(ks, room, ts, direction, accepts, cap, r)
    requires SearchOutcome(ks, room, ts, direction, accepts, cap, s)
    ensures r == s
  {
    var p :| OutcomeAfter(ks, room, ts, direction, accepts, cap, r, p);
    var q :| OutcomeAfter(ks, room, ts, direction, accepts, cap, s, q);
    if r.event.Some? {
      SearchDeterminedFound(ks, room, ts, direction, accepts, cap, r, p, s, q);
    } else if s.event.Some? {
      SearchDeterminedFound(ks, room, ts, direction, accepts, cap, s, q, r, p);
    } else if !r.truncated && s.truncated {
      var c :| Candidate(ks, room, ts, direction, c) && c !in q;
      AllRefusedNotTruncated(ks, room, ts, direction, accepts, p, q, c);
    } else if r.truncated && !s.truncated {
      var c :| Candidate(ks, room, ts, direction, c) && c !in p;
      AllRefusedNotTruncated(ks, room, ts, direction, accepts, q, p, c);
    }
  }

  lemma SearchDeterminedFound(ks: seq<RowKey>, room: Bytes, ts: int, direction: TimeDirection, accepts: nat -> bool, cap: nat,
                              r: NearestByTime, p: seq<TimeEntry>, s: NearestByTime, q: seq<TimeEntry>)
    requires OutcomeAfter(ks, room, ts, direction, accepts, cap, r, p) && r.event.Some?
    requires OutcomeAfter(ks, room, ts, direction, accepts, cap, s, q)
    ensures r == s
  {
    var e: TimeEntry :| e.position == r.event.value && Candidate(ks, room, ts, direction, e) && e !in p
                        && forall c :: Candidate(ks, room, ts, direction, c) && Nearer(direction, c, e) ==> c in p;
    FoundNotTruncated(ks, room, ts, direction, accepts, cap, e, p, q);
    assert e !in q;
    if s.event.Some? {
      var f: TimeEntry :| f.position == s.event.value && Candidate(ks, room, ts, direction, f) && f !in q
                          && forall c :: Candidate(ks, room, ts, direction, c) && Nearer(direction, c, f) ==> c in q;
      FoundOnce(ks, room, ts, direction, accepts, cap, e, p, f, q);
    }
  }
}
