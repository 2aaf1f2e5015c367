/** The loops of bulk insertion: append the new rows to every list, then sort each new tail and merge it. */
module EventBulkLoops {
  import opened Prelude
  import opened SortedLists
  import opened EventIndex
  import opened EventInsert
  import opened EventBulk

  method MergeStreamOrder(ks: seq<RowKey>, held: seq<nat>, first: nat) returns (order: seq<nat>)
    requires first <= |ks|
    ensures order == BulkStream(ks, None, first, held)
  {
    order := held;
    var position: nat := first;
    while position < |ks|
      invariant first <= position <= |ks|
      invariant order == held + NewPositions(ks, None, first, position)
    {
      order := order + [position];
      position := position + 1;
    }
    assert order[..|held|] == held && order[|held|..] == NewPositions(ks, None, first, |ks|);
    var tail := StableSort<nat>(ByOrder(ks), order[|held|..]);
    order := Merge<nat>(ByOrder(ks), order[..|held|], tail);
  }

  // ---------------------------------------------------------------- rooms by stream order

  ghost predicate AppendedAt(ks: seq<RowKey>, held: map<Bytes, seq<nat>>, m: map<Bytes, seq<nat>>, first: nat, n: nat, r: Bytes)
    requires n <= |ks|
  {
    Bucket(m, r) == Bucket(held, r) + NewPositions(ks, Some(r), first, n)
  }

  ghost predicate RoomsAppended(ks: seq<RowKey>, held: map<Bytes, seq<nat>>, m: map<Bytes, seq<nat>>, first: nat, n: nat)
    requires n <= |ks|
  {
    NoEmptyBucket(m) && forall r :: AppendedAt(ks, held, m, first, n, r)
  }

  ghost predicate TouchedAt(ks: seq<RowKey>, held: map<Bytes, seq<nat>>, touched: map<Bytes, nat>, first: nat, n: nat, r: Bytes)
    requires n <= |ks|
  {
    && (r in touched <==> NewPositions(ks, Some(r), first, n) != [])
    && (r in touched ==> touched[r] == |Bucket(held, r)|)
  }

  ghost predicate RoomsTouched(ks: seq<RowKey>, held: map<Bytes, seq<nat>>, touched: map<Bytes, nat>, first: nat, n: nat)
    requires n <= |ks|
  {
    forall r :: TouchedAt(ks, held, touched, first, n, r)
  }

  lemma RoomAppended(ks: seq<RowKey>, held: map<Bytes, seq<nat>>, m: map<Bytes, seq<nat>>, first: nat, n: nat)
    requires first <= n < |ks| && RoomsAppended(ks, held, m, first, n)
    ensures RoomsAppended(ks, held, m[ks[n].room := Bucket(m, ks[n].room) + [n]], first, n + 1)
  {
    var m' := m[ks[n].room := Bucket(m, ks[n].room) + [n]];
    var next := n + 1;
    forall r ensures AppendedAt(ks, held, m', first, next, r) {
      assert AppendedAt(ks, held, m, first, n, r);
      NextPosition(ks, r, first, n);
    }
  }

  lemma NextPosition(ks: seq<RowKey>, r: Bytes, first: nat, n: nat)
    requires first <= n < |ks|
    ensures NewPositions(ks, Some(r), first, n + 1) ==
            if r == ks[n].room then NewPositions(ks, Some(r), first, n) + [n] else NewPositions(ks, Some(r), first, n)
  {
  }

  lemma RoomTouched(ks: seq<RowKey>, held: map<Bytes, seq<nat>>, m: map<Bytes, seq<nat>>, touched: map<Bytes, nat>,
                    first: nat, n: nat)
    requires first <= n < |ks| && RoomsAppended(ks, held, m, first, n) && RoomsTouched(ks, held, touched, first, n)
    ensures var room := ks[n].room;
            RoomsTouched(ks, held, if room in touched then touched else touched[room := |Bucket(m, room)|], first, n + 1)
  {
    var room := ks[n].room;
    var touched' := if room in touched then touched else touched[room := |Bucket(m, room)|];
    assert AppendedAt(ks, held, m, first, n, room);
    var next := n + 1;
    forall r ensures TouchedAt(ks, held, touched', first, next, r) {
      assert TouchedAt(ks, held, touched, first, n, r);
      NextPosition(ks, r, first, n);
    }
  }

  method AppendToRooms(ks: seq<RowKey>, held: map<Bytes, seq<nat>>, first: nat)
    returns (m: map<Bytes, seq<nat>>, touched: map<Bytes, nat>)
    requires first <= |ks| && NoEmptyBucket(held)
    ensures RoomsAppended(ks, held, m, first, |ks|)
    ensures RoomsTouched(ks, held, touched, first, |ks|)
  {
    m, touched := held, map[];
    var position: nat := first;
    while position < |ks|
      invariant first <= position <= |ks|
      invariant RoomsAppended(ks, held, m, first, position)
      invariant RoomsTouched(ks, held, touched, first, position)
    {
      var room := ks[position].room;
      var positions := Bucket(m, room);
      RoomTouched(ks, held, m, touched, first, position);
      RoomAppended(ks, held, m, first, position);
      if room !in touched {
        touched := touched[room := |positions|];
      }
      m := m[room := positions + [position]];
      position := position + 1;
    }
  }

  /** The list of a room in `todo` has an unsorted tail; every other list is merged. */
  ghost predicate MergedAt(ks: seq<RowKey>, held: map<Bytes, seq<nat>>, m: map<Bytes, seq<nat>>, first: nat, todo: set<Bytes>, r: Bytes) {
    if r in todo then AppendedAt(ks, held, m, first, |ks|, r)
    else Bucket(m, r) == BulkStream(ks, Some(r), first, Bucket(held, r))
  }

  ghost predicate RoomsMerged(ks: seq<RowKey>, held: map<Bytes, seq<nat>>, m: map<Bytes, seq<nat>>, first: nat, todo: set<Bytes>) {
    NoEmptyBucket(m) && forall r :: MergedAt(ks, held, m, first, todo, r)
  }

  lemma UntouchedMerged(ks: seq<RowKey>, held: map<Bytes, seq<nat>>, m: map<Bytes, seq<nat>>, touched: map<Bytes, nat>, first: nat)
    requires RoomsAppended(ks, held, m, first, |ks|) && RoomsTouched(ks, held, touched, first, |ks|)
    ensures RoomsMerged(ks, held, m, first, touched.Keys)
  {
    forall r ensures MergedAt(ks, held, m, first, touched.Keys, r) {
      assert AppendedAt(ks, held, m, first, |ks|, r);
      assert TouchedAt(ks, held, touched, first, |ks|, r);
    }
  }

  lemma BulkStreamNonEmpty(ks: seq<RowKey>, room: Option<Bytes>, first: nat, held: seq<nat>)
    requires NewPositions(ks, room, first, |ks|) != []
    ensures BulkStream(ks, room, first, held) != []
  {
    var tail := NewPositions(ks, room, first, |ks|);
    StableSortElements<nat>(ByOrder(ks), tail);
    assert |multiset(StableSort<nat>(ByOrder(ks), tail))| == |multiset(tail)| > 0;
    MergeElements<nat>(ByOrder(ks), held, StableSort<nat>(ByOrder(ks), tail));
  }

  lemma RoomMerged(ks: seq<RowKey>, held: map<Bytes, seq<nat>>, m: map<Bytes, seq<nat>>, first: nat, todo: set<Bytes>, room: Bytes)
    requires RoomsMerged(ks, held, m, first, todo) && room in todo
    requires NewPositions(ks, Some(room), first, |ks|) != []
    ensures RoomsMerged(ks, held, m[room := BulkStream(ks, Some(room), first, Bucket(held, room))], first, todo - {room})
  {
    var m' := m[room := BulkStream(ks, Some(room), first, Bucket(held, room))];
    BulkStreamNonEmpty(ks, Some(room), first, Bucket(held, room));
    forall r ensures MergedAt(ks, held, m', first, todo - {room}, r) {
      assert MergedAt(ks, held, m, first, todo, r);
    }
  }

  method MergeRoomStreams(ks: seq<RowKey>, held: map<Bytes, seq<nat>>, first: nat) returns (m: map<Bytes, seq<nat>>)
    requires first <= |ks| && NoEmptyBucket(held)
    ensures NoEmptyBucket(m)
    ensures forall r :: Bucket(m, r) == BulkStream(ks, Some(r), first, Bucket(held, r))
  {
    var touched;
    m, touched := AppendToRooms(ks, held, first);
    UntouchedMerged(ks, held, m, touched, first);
    var todo := touched.Keys;
    while todo != {}
      invariant todo <= touched.Keys
      invariant RoomsMerged(ks, held, m, first, todo)
    {
      var room :| room in todo;
      var positions, middle := Bucket(m, room), touched[room];
      assert MergedAt(ks, held, m, first, todo, room) && TouchedAt(ks, held, touched, first, |ks|, room);
      assert positions[..middle] == Bucket(held, room);
      assert positions[middle..] == NewPositions(ks, Some(room), first, |ks|);
      RoomMerged(ks, held, m, first, todo, room);
      var tail := StableSort<nat>(ByOrder(ks), positions[middle..]);
      m := m[room := Merge<nat>(ByOrder(ks), positions[..middle], tail)];
      todo := todo - {room};
    }
    forall r ensures Bucket(m, r) == BulkStream(ks, Some(r), first, Bucket(held, r)) {
      assert MergedAt(ks, held, m, first, {}, r);
    }
  }

  // ---------------------------------------------------------------- rooms by time

  ghost predicate TimeAppendedAt(ks: seq<RowKey>, held: map<Bytes, seq<TimeEntry>>, m: map<Bytes, seq<TimeEntry>>, first: nat, n: nat, r: Bytes)
    requires n <= |ks|
  {
    Bucket(m, r) == Bucket(held, r) + NewEntries(ks, r, first, n)
  }

  ghost predicate TimesAppended(ks: seq<RowKey>, held: map<Bytes, seq<TimeEntry>>, m: map<Bytes, seq<TimeEntry>>, first: nat, n: nat)
    requires n <= |ks|
  {
    NoEmptyBucket(m) && forall r :: TimeAppendedAt(ks, held, m, first, n, r)
  }

  ghost predicate TimeTouchedAt(ks: seq<RowKey>, held: map<Bytes, seq<TimeEntry>>, touched: map<Bytes, nat>, first: nat, n: nat, r: Bytes)
    requires n <= |ks|
  {
    && (r in touched <==> NewEntries(ks, r, first, n) != [])
    && (r in touched ==> touched[r] == |Bucket(held, r)|)
  }

  ghost predicate TimesTouched(ks: seq<RowKey>, held: map<Bytes, seq<TimeEntry>>, touched: map<Bytes, nat>, first: nat, n: nat)
    requires n <= |ks|
  {
    forall r :: TimeTouchedAt(ks, held, touched, first, n, r)
  }

  lemma NextEntry(ks: seq<RowKey>, r: Bytes, first: nat, n: nat)
    requires first <= n < |ks|
    ensures NewEntries(ks, r, first, n + 1) ==
            if r == ks[n].room && TimeOf(ks[n], n).Some? then NewEntries(ks, r, first, n) + [TimeOf(ks[n], n).value]
            else NewEntries(ks, r, first, n)
  {
  }

  lemma TimeAppended(ks: seq<RowKey>, held: map<Bytes, seq<TimeEntry>>, m: map<Bytes, seq<TimeEntry>>, first: nat, n: nat)
    requires first <= n < |ks| && TimesAppended(ks, held, m, first, n)
    ensures var e := TimeOf(ks[n], n);
            TimesAppended(ks, held, if e.None? then m else m[ks[n].room := Bucket(m, ks[n].room) + [e.value]], first, n + 1)
  {
    var e := TimeOf(ks[n], n);
    var m' := if e.None? then m else m[ks[n].room := Bucket(m, ks[n].room) + [e.value]];
    var next := n + 1;
    forall r ensures TimeAppendedAt(ks, held, m', first, next, r) {
      assert TimeAppendedAt(ks, held, m, first, n, r);
      NextEntry(ks, r, first, n);
    }
  }

  lemma TimeTouched(ks: seq<RowKey>, held: map<Bytes, seq<TimeEntry>>, m: map<Bytes, seq<TimeEntry>>, touched: map<Bytes, nat>,
                    first: nat, n: nat)
    requires first <= n < |ks| && TimesAppended(ks, held, m, first, n) && TimesTouched(ks, held, touched, first, n)
    ensures var room := ks[n].room;
            TimesTouched(ks, held, if TimeOf(ks[n], n).None? || room in touched then touched
                                   else touched[room := |Bucket(m, room)|], first, n + 1)
  {
    var room := ks[n].room;
    var touched' := if TimeOf(ks[n], n).None? || room in touched then touched else touched[room := |Bucket(m, room)|];
    assert TimeAppendedAt(ks, held, m, first, n, room);
    var next := n + 1;
    forall r ensures TimeTouchedAt(ks, held, touched', first, next, r) {
      assert TimeTouchedAt(ks, held, touched, first, n, r);
      NextEntry(ks, r, first, n);
    }
  }

  method AppendToTimes(ks: seq<RowKey>, held: map<Bytes, seq<TimeEntry>>, first: nat)
    returns (m: map<Bytes, seq<TimeEntry>>, touched: map<Bytes, nat>)
    requires first <= |ks| && NoEmptyBucket(held)
    ensures TimesAppended(ks, held, m, first, |ks|)
    ensures TimesTouched(ks, held, touched, first, |ks|)
  {
    m, touched := held, map[];
    var position: nat := first;
    while position < |ks|
      invariant first <= position <= |ks|
      invariant TimesAppended(ks, held, m, first, position)
      invariant TimesTouched(ks, held, touched, first, position)
    {
      var entry := TimeOf(ks[position], position);
      TimeTouched(ks, held, m, touched, first, position);
      TimeAppended(ks, held, m, first, position);
      if entry.Some? {
        var room := ks[position].room;
        var entries := Bucket(m, room);
        if room !in touched {
          touched := touched[room := |entries|];
        }
        m := m[room := entries + [entry.value]];
      }
      position := position + 1;
    }
  }

  ghost predicate TimeMergedAt(ks: seq<RowKey>, held: map<Bytes, seq<TimeEntry>>, m: map<Bytes, seq<TimeEntry>>, first: nat,
                               todo: set<Bytes>, r: Bytes)
  {
    if r in todo then TimeAppendedAt(ks, held, m, first, |ks|, r)
    else Bucket(m, r) == BulkTime(ks, r, first, Bucket(held, r))
  }

  ghost predicate TimesMerged(ks: seq<RowKey>, held: map<Bytes, seq<TimeEntry>>, m: map<Bytes, seq<TimeEntry>>, first: nat, todo: set<Bytes>) {
    NoEmptyBucket(m) && forall r :: TimeMergedAt(ks, held, m, first, todo, r)
  }

  lemma UntouchedTimesMerged(ks: seq<RowKey>, held: map<Bytes, seq<TimeEntry>>, m: map<Bytes, seq<TimeEntry>>,
                             touched: map<Bytes, nat>, first: nat)
    requires TimesAppended(ks, held, m, first, |ks|) && TimesTouched(ks, held, touched, first, |ks|)
    ensures TimesMerged(ks, held, m, first, touched.Keys)
  {
    forall r ensures TimeMergedAt(ks, held, m, first, touched.Keys, r) {
      assert TimeAppendedAt(ks, held, m, first, |ks|, r);
      assert TimeTouchedAt(ks, held, touched, first, |ks|, r);
    }
  }

  lemma BulkTimeNonEmpty(ks: seq<RowKey>, room: Bytes, first: nat, held: seq<TimeEntry>)
    requires NewEntries(ks, room, first, |ks|) != []
    ensures BulkTime(ks, room, first, held) != []
  {
    var tail := NewEntries(ks, room, first, |ks|);
    StableSortElements(ByTime(), tail);
    assert |multiset(StableSort(ByTime(), tail))| == |multiset(tail)| > 0;
    MergeElements(ByTime(), held, StableSort(ByTime(), tail));
  }

  lemma TimeMerged(ks: seq<RowKey>, held: map<Bytes, seq<TimeEntry>>, m: map<Bytes, seq<TimeEntry>>, first: nat, todo: set<Bytes>, room: Bytes)
    requires TimesMerged(ks, held, m, first, todo) && room in todo
    requires NewEntries(ks, room, first, |ks|) != []
    ensures TimesMerged(ks, held, m[room := BulkTime(ks, room, first, Bucket(held, room))], first, todo - {room})
  {
    var m' := m[room := BulkTime(ks, room, first, Bucket(held, room))];
    BulkTimeNonEmpty(ks, room, first, Bucket(held, room));
    forall r ensures TimeMergedAt(ks, held, m', first, todo - {room}, r) {
      assert TimeMergedAt(ks, held, m, first, todo, r);
    }
  }

  method MergeRoomTimes(ks: seq<RowKey>, held: map<Bytes, seq<TimeEntry>>, first: nat) returns (m: map<Bytes, seq<TimeEntry>>)
    requires first <= |ks| && NoEmptyBucket(held)
    ensures NoEmptyBucket(m)
    ensures forall r :: Bucket(m, r) == BulkTime(ks, r, first, Bucket(held, r))
  {
    var touched;
    m, touched := AppendToTimes(ks, held, first);
    UntouchedTimesMerged(ks, held, m, touched, first);
    var todo := touched.Keys;
    while todo != {}
      invariant todo <= touched.Keys
      invariant TimesMerged(ks, held, m, first, todo)
    {
      var room :| room in todo;
      var entries, middle := Bucket(m, room), touched[room];
      assert TimeMergedAt(ks, held, m, first, todo, room) && TimeTouchedAt(ks, held, touched, first, |ks|, room);
      assert entries[..middle] == Bucket(held, room);
      assert entries[middle..] == NewEntries(ks, room, first, |ks|);
      TimeMerged(ks, held, m, first, todo, room);
      var tail := StableSort(ByTime(), entries[middle..]);
      m := m[room := Merge(ByTime(), entries[..middle], tail)];
      todo := todo - {room};
    }
    forall r ensures Bucket(m, r) == BulkTime(ks, r, first, Bucket(held, r)) {
      assert TimeMergedAt(ks, held, m, first, {}, r);
    }
  }

  // ---------------------------------------------------------------- relations

  ghost predicate ChildrenAppendedAt(ks: seq<RowKey>, held: map<Bytes, RelationLists>, m: map<Bytes, RelationLists>,
                                     first: nat, n: nat, key: RelationKey)
    requires n <= |ks|
  {
    Children(m, key) == Children(held, key) + NewChildren(ks, key, first, n)
  }

  ghost predicate ChildrenAppended(ks: seq<RowKey>, held: map<Bytes, RelationLists>, m: map<Bytes, RelationLists>, first: nat, n: nat)
    requires n <= |ks|
  {
    NoEmptyTarget(m) && forall key :: ChildrenAppendedAt(ks, held, m, first, n, key)
  }

  lemma PlacedKeepsTargets(ks: seq<RowKey>, m: map<Bytes, RelationLists>, n: nat)
    requires n < |ks| && NoEmptyTarget(m)
    ensures NoEmptyTarget(PlaceChild(ks, m, n))
  {
    if ks[n].relation.Some? {
      var own := ks[n].relation.value;
      ChildrenAfterSet(m, own, Children(m, own) + [n], own);
    }
  }

  lemma ChildAppended(ks: seq<RowKey>, held: map<Bytes, RelationLists>, m: map<Bytes, RelationLists>, first: nat, n: nat)
    requires first <= n < |ks| && ChildrenAppended(ks, held, m, first, n)
    ensures ChildrenAppended(ks, held, PlaceChild(ks, m, n), first, n + 1)
  {
    var m' := PlaceChild(ks, m, n);
    PlacedKeepsTargets(ks, m, n);
    var next := n + 1;
    forall key ensures ChildrenAppendedAt(ks, held, m', first, next, key) {
      assert ChildrenAppendedAt(ks, held, m, first, n, key);
      if ks[n].relation.Some? {
        var own := ks[n].relation.value;
        ChildrenAfterSet(m, own, Children(m, own) + [n], key);
      }
    }
  }

  method IndexRelations(ks: seq<RowKey>, held: map<Bytes, RelationLists>, first: nat) returns (m: map<Bytes, RelationLists>)
    requires first <= |ks| && NoEmptyTarget(held)
    ensures NoEmptyTarget(m)
    ensures forall key :: Children(m, key) == BulkChildren(ks, key, first, Children(held, key))
  {
    m := held;
    var position: nat := first;
    while position < |ks|
      invariant first <= position <= |ks|
      invariant ChildrenAppended(ks, held, m, first, position)
    {
      ChildAppended(ks, held, m, first, position);
      m := PlaceChild(ks, m, position);
      position := position + 1;
    }
    forall key ensures Children(m, key) == BulkChildren(ks, key, first, Children(held, key)) {
      assert ChildrenAppendedAt(ks, held, m, first, |ks|, key);
    }
  }
}
