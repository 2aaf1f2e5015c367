/** The loops of removal and of in-place changes, on the values of the fields they change. */
module EventLoops {
  import opened Prelude
  import opened SortedLists
  import opened EventIndex
  import opened EventInsert
  import opened EventErase
  import opened EventModify

  // ---------------------------------------------------------------- compaction

  lemma NextKept(removed: seq<bool>, n: nat)
    requires n < |removed|
    ensures KeptTo(removed, n + 1) == if removed[n] then KeptTo(removed, n) else KeptTo(removed, n) + [n]
    ensures RemapTo(removed, n + 1) ==
            RemapTo(removed, n) + [if removed[n] then None else Some(|KeptTo(removed, n)|)]
    ensures |KeptTo(removed, n)| <= n
  {
    KeptToExact(removed, n);
  }

  /** The rows moved so far are the survivors so far; the rows not yet reached are where they were. */
  ghost predicate Compacted<T>(rows: seq<T>, sources: seq<nat>, moved: seq<T>, position: nat) {
    && |moved| == |rows| && |sources| <= position <= |rows|
    && (forall q :: 0 <= q < |sources| ==> sources[q] < |rows| && moved[q] == rows[sources[q]])
    && (forall q :: position <= q < |rows| ==> moved[q] == rows[q])
  }

  lemma CompactedStep<T>(rows: seq<T>, sources: seq<nat>, moved: seq<T>, position: nat)
    requires Compacted(rows, sources, moved, position) && position < |rows|
    ensures Compacted(rows, sources, moved, position + 1)
    ensures Compacted(rows, sources + [position], moved[|sources| := moved[position]], position + 1)
  {
  }

  lemma CompactedDone<T>(rows: seq<T>, removed: seq<bool>, moved: seq<T>)
    requires |removed| == |rows| && Compacted(rows, KeptTo(removed, |rows|), moved, |rows|)
    ensures moved[..|KeptTo(removed, |rows|)|] == KeptOf(rows, removed)
  {
    assert Kept(removed) == KeptTo(removed, |rows|);
  }

  /** One row of the compaction: passed over, or moved down to where the next survivor goes. */
  method CompactRow<T>(ghost rows: seq<T>, removed: seq<bool>, moved: seq<T>, ghost sources: seq<nat>, kept: nat, position: nat)
    returns (moved': seq<T>, place: Option<nat>)
    requires |removed| == |rows| && position < |rows| && kept == |sources| && Compacted(rows, sources, moved, position)
    ensures place == if removed[position] then None else Some(kept)
    ensures Compacted(rows, if removed[position] then sources else sources + [position], moved', position + 1)
  {
    CompactedStep(rows, sources, moved, position);
    moved' := moved;
    if removed[position] {
      return moved, None;
    }
    if kept != position {
      moved' := moved[kept := moved[position]];
    }
    place := Some(kept);
  }

  /** Moves the surviving rows down over the removed ones and notes where each one went. */
  method CompactRows<T>(rows: seq<T>, removed: seq<bool>) returns (survivors: seq<T>, remap: seq<Option<nat>>)
    requires |removed| == |rows|
    ensures survivors == KeptOf(rows, removed)
    ensures remap == Remap(removed)
  {
    survivors, remap := rows, [];
    var kept, position := 0, 0;
    while position < |rows|
      invariant 0 <= position <= |rows| && kept == |KeptTo(removed, position)|
      invariant remap == RemapTo(removed, position)
      invariant Compacted(rows, KeptTo(removed, position), survivors, position)
    {
      NextKept(removed, position);
      var place;
      survivors, place := CompactRow(rows, removed, survivors, KeptTo(removed, position), kept, position);
      remap := remap + [place];
      if place.Some? {
        kept := kept + 1;
      }
      position := position + 1;
    }
    CompactedDone(rows, removed, survivors);
    survivors := survivors[..kept];
  }

  // ---------------------------------------------------------------- renumbering

  /** Drops what is gone from a list and renumbers the rest. */
  method RenumberList<T>(f: T -> Option<T>, s: seq<T>) returns (r: seq<T>)
    ensures r == FilterMap(f, s)
  {
    r := [];
    var i := 0;
    while i < |s|
      invariant 0 <= i <= |s| && r == FilterMap(f, s[..i])
    {
      assert s[..i + 1][..i] == s[..i];
      var x := f(s[i]);
      if x.Some? {
        r := r + [x.value];
      }
      i := i + 1;
    }
    assert s[..i] == s;
  }

  /** What the walk over the rooms has left of the rooms it has seen, and the rooms it has not. */
  ghost predicate RoomsWalked<T>(f: T -> Option<T>, m: map<Bytes, seq<T>>, todo: set<Bytes>, r: map<Bytes, seq<T>>) {
    && todo <= m.Keys
    && (forall k :: k in r <==> k in m && k !in todo && FilterMap(f, m[k]) != [])
    && (forall k :: k in r ==> r[k] == FilterMap(f, m[k]))
  }

  /** Renumbers every room's list and drops the rooms that are left with none. */
  method RenumberRooms<T>(f: T -> Option<T>, m: map<Bytes, seq<T>>) returns (r: map<Bytes, seq<T>>)
    ensures r == CompactBuckets(f, m)
  {
    r := map[];
    var todo := m.Keys;
    while todo != {}
      invariant RoomsWalked(f, m, todo, r)
      decreases |todo|
    {
      var room :| room in todo;
      var list := RenumberList(f, m[room]);
      if list != [] {
        r := r[room := list];
      }
      todo := todo - {room};
    }
  }

  ghost predicate TargetsWalked(remap: seq<Option<nat>>, m: map<Bytes, RelationLists>, todo: set<Bytes>, r: map<Bytes, RelationLists>) {
    && todo <= m.Keys
    && (forall k :: k in r <==> k in m && k !in todo && !CompactLists(remap, m[k]).AllEmpty())
    && (forall k :: k in r ==> r[k] == CompactLists(remap, m[k]))
  }

  /** Renumbers the three lists of every target and drops the targets that are left with none. */
  method RenumberTargets(remap: seq<Option<nat>>, m: map<Bytes, RelationLists>) returns (r: map<Bytes, RelationLists>)
    ensures r == CompactChildren(remap, m)
  {
    r := map[];
    var todo := m.Keys;
    while todo != {}
      invariant TargetsWalked(remap, m, todo, r)
      decreases |todo|
    {
      var target :| target in todo;
      var replace := RenumberList(Renumber(remap), m[target].replace);
      var thread := RenumberList(Renumber(remap), m[target].thread);
      var reference := RenumberList(Renumber(remap), m[target].reference);
      var lists := RelationLists(replace, thread, reference);
      if !lists.AllEmpty() {
        r := r[target := lists];
      }
      todo := todo - {target};
    }
  }

  ghost predicate IdsWalked(remap: seq<Option<nat>>, m: map<Bytes, nat>, todo: set<Bytes>, r: map<Bytes, nat>) {
    && todo <= m.Keys
    && (forall k :: k in r <==> k in m && k !in todo && NewPosition(remap, m[k]).Some?)
    && (forall k :: k in r ==> r[k] == NewPosition(remap, m[k]).value)
  }

  /** Drops the ids of removed rows and renumbers the rest. */
  method RenumberIds(remap: seq<Option<nat>>, m: map<Bytes, nat>) returns (r: map<Bytes, nat>)
    ensures r == CompactIds(remap, m)
  {
    r := map[];
    var todo := m.Keys;
    while todo != {}
      invariant IdsWalked(remap, m, todo, r)
      decreases |todo|
    {
      var id :| id in todo;
      var position := NewPosition(remap, m[id]);
      if position.Some? {
        r := r[id := position.value];
      }
      todo := todo - {id};
    }
  }

  // ---------------------------------------------------------------- the latest timestamp of a room

  ghost predicate LatestElsewhere(m: map<Bytes, int>, m': map<Bytes, int>, room: Bytes) {
    && (forall r :: r in m' ==> m'[r] > 0)
    && (forall r :: r != room ==> LatestIn(m', r) == LatestIn(m, r))
  }

  /** Makes the room's greatest timestamp the greatest of the rows it now holds. */
  method RecomputeLatest(ks: seq<RowKey>, positions: seq<nat>, m: map<Bytes, int>, room: Bytes) returns (m': map<Bytes, int>)
    requires forall p: nat :: p in positions <==> Selected(ks, Some(room), p)
    requires forall r :: r in m ==> m[r] > 0
    ensures LatestElsewhere(m, m', room)
    ensures IsLatest(ks, room, LatestIn(m', room))
  {
    var latest := 0;
    var i := 0;
    assert forall j :: 0 <= j < |positions| ==> positions[j] in positions;
    while i < |positions|
      invariant 0 <= i <= |positions| && latest >= 0
      invariant forall j :: 0 <= j < i ==> LatestTs(ks[positions[j]]) <= latest
      invariant latest > 0 ==> exists j :: 0 <= j < i && LatestTs(ks[positions[j]]) == latest
    {
      var ts := LatestTs(ks[positions[i]]);
      if latest < ts {
        latest := ts;
      }
      i := i + 1;
    }
    if latest > 0 {
      m' := m[room := latest];
    } else {
      m' := m - {room};
    }
    assert IsLatest(ks, room, latest);
  }

  /** The rooms in `todo` are still to be recomputed; every other room is exact. */
  ghost predicate LatestBut(ks: seq<RowKey>, m: map<Bytes, int>, todo: set<Bytes>) {
    && (forall r :: r in m ==> m[r] > 0)
    && (forall r :: r !in todo ==> IsLatest(ks, r, LatestIn(m, r)))
  }

  lemma LatestStep(ks: seq<RowKey>, m: map<Bytes, int>, m': map<Bytes, int>, todo: set<Bytes>, room: Bytes)
    requires LatestBut(ks, m, todo) && LatestElsewhere(m, m', room) && IsLatest(ks, room, LatestIn(m', room))
    ensures LatestBut(ks, m', todo - {room})
  {
    forall r | r !in todo - {room} ensures IsLatest(ks, r, LatestIn(m', r)) {
      if r != room { assert IsLatest(ks, r, LatestIn(m, r)); }
    }
  }

  lemma LatestDone(ks: seq<RowKey>, m: map<Bytes, int>)
    requires LatestBut(ks, m, {})
    ensures m == LatestMap(ks)
  {
    LatestMapExact(ks);
    LatestMapDetermined(ks, m, LatestMap(ks));
  }

  method RecomputeRooms(ks: seq<RowKey>, streams: map<Bytes, seq<nat>>, m: map<Bytes, int>, rooms: set<Bytes>)
    returns (m': map<Bytes, int>)
    requires RoomStreamsExact(ks, streams) && LatestBut(ks, m, rooms)
    ensures m' == LatestMap(ks)
  {
    m' := m;
    var todo := rooms;
    while todo != {}
      invariant LatestBut(ks, m', todo)
      decreases todo
    {
      var room :| room in todo;
      ghost var before := m';
      assert StreamList(ks, Some(room), Bucket(streams, room));
      m' := RecomputeLatest(ks, Bucket(streams, room), m', room);
      LatestStep(ks, before, m', todo, room);
      todo := todo - {room};
    }
    LatestDone(ks, m');
  }

  method RoomsLosingRows(ks: seq<RowKey>, removed: seq<bool>) returns (rooms: set<Bytes>)
    requires |removed| == |ks|
    ensures forall r :: r in rooms <==> exists p :: 0 <= p < |ks| && removed[p] && ks[p].room == r
  {
    rooms := {};
    var position := 0;
    while position < |ks|
      invariant 0 <= position <= |ks|
      invariant forall r :: r in rooms <==> exists p :: 0 <= p < position && removed[p] && ks[p].room == r
    {
      if removed[position] {
        rooms := rooms + {ks[position].room};
      }
      position := position + 1;
    }
  }

  /** A room that loses no row keeps its greatest timestamp. */
  lemma UntouchedLatest(ks: seq<RowKey>, removed: seq<bool>, m: map<Bytes, int>, rooms: set<Bytes>)
    requires |removed| == |ks| && LatestExact(ks, m)
    requires forall r :: r in rooms <==> exists p :: 0 <= p < |ks| && removed[p] && ks[p].room == r
    ensures LatestBut(KeptOf(ks, removed), m, rooms)
  {
    var ks' := KeptOf(ks, removed);
    forall r | r !in rooms ensures IsLatest(ks', r, LatestIn(m, r)) {
      var v := LatestIn(m, r);
      assert IsLatest(ks, r, v);
      forall q: nat | Selected(ks', Some(r), q) ensures LatestTs(ks'[q]) <= v {
        assert Selected(ks, Some(r), Kept(removed)[q]);
      }
      if v > 0 {
        var p: nat :| Selected(ks, Some(r), p) && LatestTs(ks[p]) == v;
        assert !removed[p];
        RemapKept(removed, p);
        KeptRow(ks, removed, p);
        var q := NewPosition(Remap(removed), p).value;
        assert Selected(ks', Some(r), q) && LatestTs(ks'[q]) == v;
      }
    }
  }

  // ---------------------------------------------------------------- taking one row out of a list

  lemma {:induction false} WithoutAbsent<T>(s: seq<T>, x: T)
    requires x !in s
    ensures Without(s, x) == s
  {
    if s != [] {
      WithoutAbsent(s[..|s| - 1], x);
      assert s == s[..|s| - 1] + [s[|s| - 1]];
    }
  }

  /** Erasing the one place an element is listed. */
  lemma {:induction false} EraseAt<T>(s: seq<T>, i: nat)
    requires NoDup(s) && i < |s|
    ensures s[..i] + s[i + 1..] == Without(s, s[i])
  {
    var n := |s| - 1;
    if i == n {
      WithoutAbsent(s[..n], s[n]);
      assert s[..i] + s[i + 1..] == s[..n];
    } else {
      EraseAt(s[..n], i);
      assert s[..i] + s[i + 1..] == (s[..n][..i] + s[..n][i + 1..]) + [s[n]];
    }
  }

  /** Finds the row among those of its stream ordering and erases it from a room's list. */
  method EraseFromStream(ks: seq<RowKey>, s: seq<nat>, position: nat) returns (r: seq<nat>)
    requires NoDup(s) && Sorted(ByOrder(ks), s)
    ensures r == Without(s, position)
  {
    var at: nat := LowerBound<nat>(ByOrder(ks), s, position);
    var end := UpperBound<nat>(ByOrder(ks), s, position);
    EqualRange(ks, s, position);
    ghost var start := at;
    while at < end && s[at] != position
      invariant start <= at <= |s|
      invariant forall i :: start <= i < at ==> s[i] != position
    {
      at := at + 1;
    }
    if at < end {
      EraseAt(s, at);
      r := s[..at] + s[at + 1..];
    } else {
      assert position !in s;
      WithoutAbsent(s, position);
      r := s;
    }
  }

  /** Everything outside the range of equal stream orderings has another stream ordering. */
  lemma EqualRange(ks: seq<RowKey>, s: seq<nat>, position: nat)
    requires Sorted(ByOrder(ks), s)
    ensures var lo, hi := LowerBound<nat>(ByOrder(ks), s, position), UpperBound<nat>(ByOrder(ks), s, position);
            lo <= hi && forall i :: 0 <= i < |s| && s[i] == position ==> lo <= i < hi
  {
    var lt := ByOrder(ks);
    OrdersAreStrictWeak(ks);
    var lo, hi := LowerBound<nat>(lt, s, position), UpperBound<nat>(lt, s, position);
    assert lo < |s| ==> !lt(s[lo], position);
    assert hi < |s| ==> lt(position, s[hi]);
    forall i | 0 <= i < |s| && s[i] == position ensures lo <= i < hi {
    }
  }

  method EraseFromTimes(s: seq<TimeEntry>, entry: TimeEntry) returns (r: seq<TimeEntry>)
    requires NoDup(s) && Sorted(ByTime(), s)
    ensures r == Without(s, entry)
  {
    var at := LowerBound(ByTime(), s, entry);
    OrdersAreStrictWeak([]);
    if at < |s| && s[at] == entry {
      EraseAt(s, at);
      r := s[..at] + s[at + 1..];
    } else {
      forall i | 0 <= i < |s| ensures s[i] != entry {
        if at < i { assert !Earlier(s[i], s[at]); }
      }
      WithoutAbsent(s, entry);
      r := s;
    }
  }

  // ---------------------------------------------------------------- a changed row moves in the lists

  /** A list of stored positions, in stream order. */
  ghost predicate Placeable(ks: seq<RowKey>, s: seq<nat>) {
    (forall p: nat :: p in s ==> p < |ks|) && Sorted(ByOrder(ks), s)
  }

  /** Places the row after every row of the list with a stream ordering no greater than its own. */
  method InsertInStream(ks: seq<RowKey>, s: seq<nat>, position: nat) returns (r: seq<nat>)
    requires position < |ks| && Placeable(ks, s)
    ensures r == Merge<nat>(ByOrder(ks), s, [position])
  {
    OrdersAreStrictWeak(ks);
    assert s != [] ==> s[|s| - 1] in s;
    if s == [] || ks[s[|s| - 1]].order <= ks[position].order {
      AppendIsMerge<nat>(ByOrder(ks), s, position);
      return s + [position];
    }
    InsertIsMerge<nat>(ByOrder(ks), s, position);
    var after := UpperBound<nat>(ByOrder(ks), s, position);
    return s[..after] + [position] + s[after..];
  }

  method InsertInTimes(s: seq<TimeEntry>, entry: TimeEntry) returns (r: seq<TimeEntry>)
    requires Sorted(ByTime(), s)
    ensures r == Merge(ByTime(), s, [entry])
  {
    OrdersAreStrictWeak([]);
    if s == [] || !Earlier(entry, s[|s| - 1]) {
      AppendIsMerge(ByTime(), s, entry);
      return s + [entry];
    }
    InsertIsMerge(ByTime(), s, entry);
    var after := UpperBound(ByTime(), s, entry);
    return s[..after] + [entry] + s[after..];
  }

  method ReindexStream(ks: seq<RowKey>, m: map<Bytes, seq<nat>>, room: Bytes, position: nat) returns (m': map<Bytes, seq<nat>>)
    requires position < |ks|
    requires NoDup(Bucket(m, room)) && Sorted(ByOrder(ks), Bucket(m, room))
    requires Placeable(ks, Bucket(DropStream(m, room, position), ks[position].room))
    ensures m' == if ks[position].room == room then m else PlaceStream(ks, DropStream(m, room, position), position)
  {
    m' := m;
    if ks[position].room != room {
      var left := EraseFromStream(ks, Bucket(m, room), position);
      m' := SetBucket(m, room, left);
      var placed := InsertInStream(ks, Bucket(m', ks[position].room), position);
      m' := m'[ks[position].room := placed];
    }
  }

  method ReindexTime(ks: seq<RowKey>, m: map<Bytes, seq<TimeEntry>>, room: Bytes, position: nat, before: Option<TimeEntry>)
    returns (m': map<Bytes, seq<TimeEntry>>)
    requires position < |ks|
    requires NoDup(Bucket(m, room)) && Sorted(ByTime(), Bucket(m, room))
    requires Sorted(ByTime(), Bucket(DropTime(m, room, before), ks[position].room))
    ensures m' == if ks[position].room == room && TimeOf(ks[position], position) == before then m
                  else PlaceTime(ks, DropTime(m, room, before), position)
  {
    m' := m;
    var after := TimeOf(ks[position], position);
    if ks[position].room != room || after != before {
      if before.Some? {
        var left := EraseFromTimes(Bucket(m, room), before.value);
        m' := SetBucket(m, room, left);
      }
      if after.Some? {
        var placed := InsertInTimes(Bucket(m', ks[position].room), after.value);
        m' := m'[ks[position].room := placed];
      }
    }
  }

  method ReindexRelation(ks: seq<RowKey>, m: map<Bytes, RelationLists>, position: nat, before: Option<RelationKey>)
    returns (m': map<Bytes, RelationLists>)
    requires position < |ks|
    ensures m' == if ks[position].relation == before then m else PlaceChild(ks, DropChild(m, before, position), position)
  {
    m' := m;
    var after := ks[position].relation;
    if after != before {
      if before.Some? {
        m' := SetChildren(m', before.value, Without(Children(m', before.value), position));
      }
      if after.Some? {
        m' := SetChildren(m', after.value, Children(m', after.value) + [position]);
      }
    }
  }

  method ReindexLatest(ks: seq<RowKey>, streams: map<Bytes, seq<nat>>, m: map<Bytes, int>, room: Bytes, position: nat, before: int)
    returns (m': map<Bytes, int>)
    requires position < |ks|
    requires RoomStreamsExact(ks, streams) && LatestBut(ks, m, {room, ks[position].room})
    requires ks[position].room == room && LatestTs(ks[position]) == before ==> m == LatestMap(ks)
    ensures m' == LatestMap(ks)
  {
    m' := m;
    if ks[position].room != room || LatestTs(ks[position]) != before {
      m' := RecomputeRooms(ks, streams, m, {room, ks[position].room});
    }
  }

  /** What taking a row out of the lists and placing it again asks of them. */
  ghost predicate Reindexable(t: Index, p: nat, k: RowKey)
    requires p < |t.ks| && SameIdentity(t.ks[p], k)
  {
    var ks, was := t.ks[p := k], t.ks[p];
    && NoDup(Bucket(t.byRoomStream, was.room)) && Sorted(ByOrder(ks), Bucket(t.byRoomStream, was.room))
    && Placeable(ks, Bucket(DropStream(t.byRoomStream, was.room, p), k.room))
    && NoDup(Bucket(t.byRoomTime, was.room)) && Sorted(ByTime(), Bucket(t.byRoomTime, was.room))
    && Sorted(ByTime(), Bucket(DropTime(t.byRoomTime, was.room, TimeOf(was, p)), k.room))
    && RoomStreamsExact(ks, ModifyRow(t, p, k).byRoomStream)
    && LatestBut(ks, t.roomLatestTs, {was.room, k.room})
    && (k.room == was.room && LatestTs(k) == LatestTs(was) ==> t.roomLatestTs == LatestMap(ks))
  }

  /** Moves the changed row, whose key was `before`, in every index it may have moved in. */
  method Reindex(ks: seq<RowKey>, streams: map<Bytes, seq<nat>>, times: map<Bytes, seq<TimeEntry>>,
                 children: map<Bytes, RelationLists>, latest: map<Bytes, int>, position: nat, before: RowKey, ghost t: Index)
    returns (streams': map<Bytes, seq<nat>>, times': map<Bytes, seq<TimeEntry>>,
             children': map<Bytes, RelationLists>, latest': map<Bytes, int>)
    requires position < |t.ks| == |ks| && before == t.ks[position] && ks == t.ks[position := ks[position]]
    requires SameIdentity(before, ks[position]) && Reindexable(t, position, ks[position])
    requires streams == t.byRoomStream && times == t.byRoomTime && children == t.relationChildren && latest == t.roomLatestTs
    ensures var t' := ModifyRow(t, position, ks[position]);
            && streams' == t'.byRoomStream && times' == t'.byRoomTime
            && children' == t'.relationChildren && latest' == t'.roomLatestTs
  {
    streams' := ReindexStream(ks, streams, before.room, position);
    times' := ReindexTime(ks, times, before.room, position, TimeOf(before, position));
    latest' := ReindexLatest(ks, streams', latest, before.room, position, LatestTs(before));
    children' := ReindexRelation(ks, children, position, before.relation);
  }
}
