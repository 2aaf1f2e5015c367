/**
 The in-memory event table: the rows and the six indexes over them, each changed in place. Every
 operation takes exactly the step EventIndex, EventInsert, EventErase and EventModify define on
 the indexes, so whatever they prove holds of the table after every sequence of calls.
 */
module EventTable {
  import opened Prelude
  import opened SortedLists
  import opened CanonicalJson
  import opened EventIndex
  import opened EventInsert
  import opened EventBulk
  import opened EventBulkLoops
  import opened EventErase
  import opened EventLoops
  import opened EventModify
  import opened EventRows
  import opened EventQueries
  import opened EventSearch

  /** The events whose ID is neither in `known` nor carried by an earlier event of the batch, in order. */
  function FreshEvents(known: set<Bytes>, events: seq<Event>): seq<Event> {
    if events == [] then []
    else
      var before := FreshEvents(known, events[..|events| - 1]);
      var last := events[|events| - 1];
      if last.eventId in known || exists e :: e in before && e.eventId == last.eventId then before else before + [last]
  }

  class EventTable {
    /** The canonical JSON parser. */
    const parse: Bytes -> Option<Json>

    /** What the indexes read of a row. */
    const keyOf: Event -> RowKey

    var rows: seq<Event>
    var byId: map<Bytes, nat>
    var streamOrder: seq<nat>
    var byRoomStream: map<Bytes, seq<nat>>
    var byRoomTime: map<Bytes, seq<TimeEntry>>
    var relationChildren: map<Bytes, RelationLists>
    var roomLatestTs: map<Bytes, int>

    function Keys(): seq<RowKey>
      reads this`rows
    {
      Map(keyOf, rows)
    }

    ghost function State(): Index
      reads this
    {
      Index(Keys(), byId, streamOrder, byRoomStream, byRoomTime, relationChildren, roomLatestTs)
    }

    ghost predicate Valid()
      reads this
    {
      Faithful(keyOf) && ReadsRows(keyOf, parse) && Consistent(State())
    }

    constructor (parse: Bytes -> Option<Json>)
      ensures Valid() && State() == EMPTY && rows == [] && this.parse == parse
    {
      this.parse := parse;
      keyOf := RowKeys(parse);
      rows, byId, streamOrder := [], map[], [];
      byRoomStream, byRoomTime, relationChildren, roomLatestTs := map[], map[], map[], map[];
      new;
      EmptyKeeps();
      RowKeysFaithful(parse);
      assert State() == EMPTY;
    }

    /** Puts new values in every field. */
    method Assign(newRows: seq<Event>, t: Index)
      requires Map(keyOf, newRows) == t.ks
      modifies this
      ensures rows == newRows && State() == t
    {
      rows, byId, streamOrder, byRoomStream := newRows, t.byId, t.streamOrder, t.byRoomStream;
      byRoomTime, relationChildren, roomLatestTs := t.byRoomTime, t.relationChildren, t.roomLatestTs;
    }

    // -------------------------------------------------------------- placing one row

    method IndexStream(position: nat)
      requires Faithful(keyOf) && position < |rows|
      requires Placeable(Keys(), Bucket(byRoomStream, rows[position].roomId))
      modifies this`byRoomStream
      ensures byRoomStream == PlaceStream(Keys(), old(byRoomStream), position)
    {
      var room := rows[position].roomId;
      var positions := InsertInStream(Keys(), Bucket(byRoomStream, room), position);
      byRoomStream := byRoomStream[room := positions];
    }

    method IndexTime(position: nat)
      requires Faithful(keyOf) && position < |rows|
      requires Sorted(ByTime(), Bucket(byRoomTime, rows[position].roomId))
      modifies this`byRoomTime
      ensures byRoomTime == PlaceTime(Keys(), old(byRoomTime), position)
    {
      var entry := TimeOf(keyOf(rows[position]), position);
      if entry.None? {
        return;
      }
      var room := rows[position].roomId;
      var entries := InsertInTimes(Bucket(byRoomTime, room), entry.value);
      byRoomTime := byRoomTime[room := entries];
    }

    method IndexRelation(position: nat, key: RelationKey)
      modifies this`relationChildren
      ensures relationChildren == SetChildren(old(relationChildren), key, Children(old(relationChildren), key) + [position])
    {
      var lists := if key.target in relationChildren then relationChildren[key.target] else NO_CHILDREN;
      lists := lists.With(key.kind, lists.Of(key.kind) + [position]);
      relationChildren := relationChildren[key.target := lists];
    }

    method RaiseRoomLatest(event: Event)
      requires Faithful(keyOf)
      modifies this`roomLatestTs
      ensures roomLatestTs == RaiseLatest(old(roomLatestTs), keyOf(event))
    {
      var latest := LatestTs(keyOf(event));
      if latest > 0 {
        var held := if event.roomId in roomLatestTs then roomLatestTs[event.roomId] else latest;
        roomLatestTs := roomLatestTs[event.roomId := if held < latest then latest else held];
      }
    }

    /** Lists the last row in every index but the id map. */
    method IndexLast(position: nat)
      requires Faithful(keyOf) && position + 1 == |rows|
      requires Placeable(Keys(), Bucket(byRoomStream, rows[position].roomId)) && Placeable(Keys(), streamOrder)
      requires Sorted(ByTime(), Bucket(byRoomTime, rows[position].roomId))
      modifies this`byRoomTime, this`byRoomStream, this`roomLatestTs, this`relationChildren, this`streamOrder
      ensures byRoomTime == PlaceTime(Keys(), old(byRoomTime), position)
      ensures byRoomStream == PlaceStream(Keys(), old(byRoomStream), position)
      ensures roomLatestTs == RaiseLatest(old(roomLatestTs), keyOf(rows[position]))
      ensures relationChildren == PlaceChild(Keys(), old(relationChildren), position)
      ensures streamOrder == Merge<nat>(ByOrder(Keys()), old(streamOrder), [position])
    {
      IndexTime(position);
      IndexStream(position);
      RaiseRoomLatest(rows[position]);
      var relation := keyOf(rows[position]).relation;
      if relation.Some? {
        IndexRelation(position, relation.value);
      }
      streamOrder := InsertInStream(Keys(), streamOrder, position);
    }

    /** Stores a row whose ID is new. */
    method Store(event: Event)
      requires Faithful(keyOf) && PlacesNewRow(State(), keyOf(event))
      modifies this
      ensures rows == old(rows) + [event]
      ensures State() == AddRow(old(State()), keyOf(event))
    {
      ghost var ks := Keys() + [keyOf(event)];
      var position := |rows|;
      byId := byId[event.eventId := position];
      rows := rows + [event];
      assert Keys() == ks;
      IndexLast(position);
    }

    /** Adds the event unless a row with its ID is held. */
    method Insert(event: Event) returns (added: bool)
      requires Valid()
      modifies this
      ensures Valid()
      ensures added <==> event.eventId !in old(byId)
      ensures rows == old(rows) + if added then [event] else []
      ensures State() == InsertRow(old(State()), keyOf(event))
    {
      if event.eventId in byId {
        return false;
      }
      NewRowPlaces(State(), keyOf(event));
      AddRowKeeps(State(), keyOf(event));
      Store(event);
      return true;
    }

    // -------------------------------------------------------------- adding many rows

    method StoreAll(events: seq<Event>)
      requires Faithful(keyOf)
      requires NoEmptyBucket(byRoomStream) && NoEmptyBucket(byRoomTime) && NoEmptyTarget(relationChildren)
      modifies this
      ensures rows == old(rows) + FreshEvents(old(byId).Keys, events)
      ensures BulkInserted(old(State()), Map(keyOf, events), State())
    {
      ghost var t := State();
      var first := |rows|;
      var all, ids, latest := AppendNew(keyOf, t, rows, byId, roomLatestTs, events);
      var ks := Map(keyOf, all);
      var order := MergeStreamOrder(ks, streamOrder, first);
      var streams := MergeRoomStreams(ks, byRoomStream, first);
      var times := MergeRoomTimes(ks, byRoomTime, first);
      var children := IndexRelations(ks, relationChildren, first);
      Assign(all, Index(ks, ids, order, streams, times, children, latest));
    }

    /** Adds every event whose ID is not held, in one pass: the same table as inserting them one by one. */
    method InsertAll(events: seq<Event>) returns (added: nat)
      requires Valid()
      modifies this
      ensures Valid()
      ensures rows == old(rows) + FreshEvents(old(byId).Keys, events)
      ensures added == |FreshEvents(old(byId).Keys, events)|
      ensures State() == InsertRows(old(State()), Map(keyOf, events))
    {
      ghost var t, batch := State(), Map(keyOf, events);
      InsertRowsKeeps(t, batch);
      var first := |rows|;
      StoreAll(events);
      BulkIsInserts(t, batch, State());
      added := |rows| - first;
    }

    // -------------------------------------------------------------- removing rows

    method Compact(removed: seq<bool>)
      requires |removed| == |rows|
      requires RoomStreamsExact(KeptOf(Keys(), removed), EraseRows(State(), removed).byRoomStream)
      requires LatestExact(Keys(), roomLatestTs)
      modifies this
      ensures rows == KeptOf(old(rows), removed)
      ensures State() == EraseRows(old(State()), removed)
    {
      var roomsLosingRows := RoomsLosingRows(Keys(), removed);
      UntouchedLatest(Keys(), removed, roomLatestTs, roomsLosingRows);
      var survivors, remap := CompactRows(rows, removed);
      var ks := Map(keyOf, survivors);
      assert ks == KeptOf(Keys(), removed);
      var ids := RenumberIds(remap, byId);
      var order := RenumberList(Renumber(remap), streamOrder);
      var streams := RenumberRooms(Renumber(remap), byRoomStream);
      var times := RenumberRooms(RenumberEntry(remap), byRoomTime);
      var children := RenumberTargets(remap, relationChildren);
      var latest := RecomputeRooms(ks, streams, roomLatestTs, roomsLosingRows);
      Assign(survivors, Index(ks, ids, order, streams, times, children, latest));
    }

    /** Removes the marked rows and renumbers every index in one pass. */
    method EraseMarked(removed: seq<bool>) returns (count: nat)
      requires Valid() && |removed| == |rows|
      modifies this
      ensures Valid()
      ensures rows == KeptOf(old(rows), removed)
      ensures count == |old(rows)| - |rows|
      ensures State() == EraseRows(old(State()), removed)
    {
      EraseRowsKeeps(State(), removed);
      KeptAtMost(removed);
      var before := |rows|;
      Compact(removed);
      count := before - |rows|;
    }

    /** Removes every row the predicate accepts. */
    method EraseIf(accepts: Event -> bool) returns (count: nat)
      requires Valid()
      modifies this
      ensures Valid()
      ensures rows == KeptOf(old(rows), Map(accepts, old(rows)))
      ensures count == |old(rows)| - |rows|
      ensures State() == EraseRows(old(State()), Map(accepts, old(rows)))
    {
      var removed: seq<bool> := [];
      var any := false;
      var position := 0;
      while position < |rows|
        invariant 0 <= position <= |rows|
        invariant removed == Map(accepts, rows)[..position]
        invariant any <==> exists i :: 0 <= i < position && accepts(rows[i])
      {
        removed := removed + [accepts(rows[position])];
        any := any || removed[position];
        position := position + 1;
      }
      assert removed == Map(accepts, rows);
      if any {
        count := EraseMarked(removed);
      } else {
        AllKept(rows, removed);
        EraseNothing(State(), removed);
        count := 0;
      }
    }

    method Clear()
      modifies this
      ensures rows == [] && State() == EMPTY
      ensures old(Valid()) ==> Valid()
    {
      rows, byId, streamOrder := [], map[], [];
      byRoomStream, byRoomTime, relationChildren, roomLatestTs := map[], map[], map[], map[];
      EmptyKeeps();
      assert State() == EMPTY;
    }

    /** Moves every row out and leaves the table empty. */
    method Extract() returns (all: seq<Event>)
      modifies this
      ensures all == old(rows)
      ensures rows == [] && State() == EMPTY
    {
      all := rows;
      Clear();
    }

    // -------------------------------------------------------------- changing a row in place

    /** Applies `mutation` to the row; its event ID and stream ordering are put back if it changes them. */
    method Modify(position: nat, mutation: Event -> Event)
      requires Valid() && position < |rows|
      modifies this
      ensures Valid()
      ensures |rows| == |old(rows)| && forall p :: 0 <= p < |rows| && p != position ==> rows[p] == old(rows)[p]
      ensures var was, now := old(rows[position]), rows[position];
              now.eventId == was.eventId && now.streamOrdering == was.streamOrdering
      ensures var m, now := mutation(old(rows[position])), rows[position];
              && now.roomId == m.roomId && now.sender == m.sender && now.json == m.json && now.depth == m.depth
              && now.prevEventIds == m.prevEventIds && now.authEventIds == m.authEventIds
              && now.signatures == m.signatures && now.status == m.status
      ensures State() == ModifyRow(old(State()), position, keyOf(rows[position]))
    {
      ghost var t := State();
      var was := rows[position];
      var now := mutation(was).(eventId := was.eventId, streamOrdering := was.streamOrdering);
      Replace(position, now, t);
    }

    /** Stores the changed row and moves it in the indexes. */
    method Replace(position: nat, now: Event, ghost t: Index)
      requires Valid() && position < |rows| && t == State()
      requires now.eventId == rows[position].eventId && now.streamOrdering == rows[position].streamOrdering
      modifies this
      ensures Valid() && rows == old(rows)[position := now]
      ensures State() == ModifyRow(t, position, keyOf(now))
    {
      var before, after := keyOf(rows[position]), keyOf(now);
      var ks := Keys()[position := after];
      ModifiedPlaces(t, position, after);
      ModifyRowKeeps(t, position, after);
      var streams, times, children, latest :=
        Reindex(ks, byRoomStream, byRoomTime, relationChildren, roomLatestTs, position, before, t);
      assert Map(keyOf, rows[position := now]) == ks;
      Assign(rows[position := now], Index(ks, byId, streamOrder, streams, times, children, latest));
    }

    // -------------------------------------------------------------- reading

    /** The position of the row with the ID, if there is one. */
    method Find(eventId: Bytes) returns (position: Option<nat>)
      requires Valid()
      ensures position.Some? ==> position.value < |rows| && rows[position.value].eventId == eventId
      ensures position.None? ==> forall i :: 0 <= i < |rows| ==> rows[i].eventId != eventId
    {
      ghost var ks := Keys();
      if eventId !in byId {
        assert forall i :: 0 <= i < |rows| ==> ks[i].id in byId;
        return None;
      }
      assert ks[byId[eventId]].id == eventId;
      return Some(byId[eventId]);
    }

    method FindInRoom(roomId: Bytes, eventId: Bytes) returns (position: Option<nat>)
      requires Valid()
      ensures position.Some? ==>
              position.value < |rows| && rows[position.value].eventId == eventId && rows[position.value].roomId == roomId
      ensures position.None? ==> forall i :: 0 <= i < |rows| ==> rows[i].eventId != eventId || rows[i].roomId != roomId
    {
      position := Find(eventId);
      if position.Some? && rows[position.value].roomId != roomId {
        UniqueId(State(), position.value);
        position := None;
      }
    }

    /** The positions of the room's rows by ascending stream ordering. */
    method RoomInStreamOrder(roomId: Bytes) returns (positions: seq<nat>)
      requires Valid()
      ensures NoDup(positions)
      ensures forall p: nat :: p in positions <==> p < |rows| && rows[p].roomId == roomId
      ensures forall i :: 0 <= i < |positions| ==> positions[i] < |rows|
      ensures forall i, j :: 0 <= i < j < |positions| ==>
                rows[positions[i]].streamOrdering <= rows[positions[j]].streamOrdering
      ensures AsAdded(State()) ==> positions == RoomWalk(State(), roomId)
    {
      positions := Bucket(byRoomStream, roomId);
      ghost var t := State();
      RoomOrderIsWalk(t, roomId);
      assert StreamList(t.ks, Some(roomId), positions);
      RoomOrdering(t.ks, roomId, positions);
    }

    /** The greatest positive timestamp of the room, or 0. */
    method RoomLatestOriginServerTs(roomId: Bytes) returns (ts: int)
      requires Valid()
      ensures LatestOf(rows, roomId, ts)
    {
      LatestMeans(parse, keyOf, rows, roomId, LatestIn(roomLatestTs, roomId));
      return LatestIn(roomLatestTs, roomId);
    }

    /** How many rows relate to the target by the kind. */
    method RelationChildCount(target: Bytes, kind: RelationKind) returns (count: nat)
      requires Valid()
      ensures count == |set p: nat | p < |rows| && RelatesTo(parse, rows[p], target, kind)|
    {
      ghost var key := RelationKey(target, kind);
      ghost var list := Children(relationChildren, key);
      assert ChildList(Keys(), key, list);
      forall p: nat | p < |rows| ensures RelatesTo(parse, rows[p], target, kind) <==> p in list {
        RelationMeans(parse, keyOf, rows[p], target, kind);
      }
      assert (set p: nat | p < |rows| && RelatesTo(parse, rows[p], target, kind)) == Elements(list);
      DistinctCount(list);
      return if target in relationChildren then |relationChildren[target].Of(kind)| else 0;
    }

    method NearestEvent(roomId: Bytes, ts: int, direction: TimeDirection, accepts: Event -> bool, cap: nat)
      returns (r: NearestByTime)
      requires Valid()
      ensures Answer(rows, roomId, ts, direction, accepts, cap, r)
      ensures (forall e :: e in rows && e.roomId == roomId ==> e.status in ["outlier", "rejected", "soft_failed"]) ==>
              r == NearestByTime(None, false)
    {
      var entries := Bucket(byRoomTime, roomId);
      assert TimeList(Keys(), roomId, entries);
      r := Nearest(Keys(), entries, roomId, ts, direction, AcceptsAt(rows, accepts), cap);
      SearchMeans(parse, keyOf, rows, roomId, ts, direction, accepts, cap, r);
      if forall e :: e in rows && e.roomId == roomId ==> e.status in ["outlier", "rejected", "soft_failed"] {
        OffTimelineIsEmpty(rows, roomId, ts, direction, accepts, cap, r);
      }
    }
  }

  /** `rows` is `held` and the fresh events of the batch, and `ids` are all their IDs. */
  ghost predicate Appended(known: set<Bytes>, held: seq<Event>, batch: seq<Event>, rows: seq<Event>, ids: set<Bytes>) {
    && rows == held + FreshEvents(known, batch)
    && (forall id :: id in ids <==> id in known || exists e :: e in FreshEvents(known, batch) && e.eventId == id)
  }

  lemma NextFresh(known: set<Bytes>, held: seq<Event>, events: seq<Event>, i: nat, rows: seq<Event>, ids: set<Bytes>)
    requires i < |events| && Appended(known, held, events[..i], rows, ids)
    ensures events[i].eventId in ids ==> Appended(known, held, events[..i + 1], rows, ids)
    ensures events[i].eventId !in ids ==>
            Appended(known, held, events[..i + 1], rows + [events[i]], ids + {events[i].eventId})
  {
    assert events[..i + 1][..i] == events[..i];
    var before, after := FreshEvents(known, events[..i]), FreshEvents(known, events[..i + 1]);
    if events[i].eventId !in ids {
      assert after == before + [events[i]];
      assert forall e :: e in after <==> e in before || e == events[i];
    }
  }

  ghost predicate SameFront(t: Index, ks: seq<RowKey>, byId: map<Bytes, nat>, latest: map<Bytes, int>) {
    t.ks == ks && t.byId == byId && t.roomLatestTs == latest
  }

  lemma NextFront(t: Index, batch: seq<RowKey>, i: nat)
    requires i < |batch|
    ensures InsertRows(t, batch[..i + 1]) == InsertRow(InsertRows(t, batch[..i]), batch[i])
  {
    assert batch[..i + 1][..i] == batch[..i];
  }

  /** What the first pass has stored of the first `i` events. */
  ghost predicate StoredTo(keyOf: Event -> RowKey, t: Index, held: seq<Event>, known: set<Bytes>, events: seq<Event>, i: nat,
                           rows: seq<Event>, byId: map<Bytes, nat>, latest: map<Bytes, int>)
    requires i <= |events|
  {
    && Appended(known, held, events[..i], rows, byId.Keys)
    && SameFront(InsertRows(t, Map(keyOf, events)[..i]), Map(keyOf, rows), byId, latest)
  }

  lemma StoredStep(keyOf: Event -> RowKey, t: Index, held: seq<Event>, known: set<Bytes>, events: seq<Event>, i: nat,
                   rows: seq<Event>, byId: map<Bytes, nat>, latest: map<Bytes, int>)
    requires Faithful(keyOf) && i < |events| && StoredTo(keyOf, t, held, known, events, i, rows, byId, latest)
    ensures events[i].eventId in byId ==> StoredTo(keyOf, t, held, known, events, i + 1, rows, byId, latest)
    ensures events[i].eventId !in byId ==>
            StoredTo(keyOf, t, held, known, events, i + 1, rows + [events[i]], byId[events[i].eventId := |rows|],
                     RaiseLatest(latest, keyOf(events[i])))
  {
    var event, batch := events[i], Map(keyOf, events);
    NextFront(t, batch, i);
    NextFresh(known, held, events, i, rows, byId.Keys);
    assert Map(keyOf, rows + [event]) == Map(keyOf, rows) + [keyOf(event)];
    assert byId[event.eventId := |rows|].Keys == byId.Keys + {event.eventId};
  }

  lemma StoredStart(keyOf: Event -> RowKey, t: Index, held: seq<Event>, events: seq<Event>, ids: map<Bytes, nat>, latest: map<Bytes, int>)
    requires SameFront(t, Map(keyOf, held), ids, latest)
    ensures StoredTo(keyOf, t, held, ids.Keys, events, 0, held, ids, latest)
  {
    assert events[..0] == [] && Map(keyOf, events)[..0] == [];
  }

  lemma StoredEnd(keyOf: Event -> RowKey, t: Index, held: seq<Event>, known: set<Bytes>, events: seq<Event>,
                  rows: seq<Event>, byId: map<Bytes, nat>, latest: map<Bytes, int>)
    requires StoredTo(keyOf, t, held, known, events, |events|, rows, byId, latest)
    ensures rows == held + FreshEvents(known, events)
    ensures SameFront(InsertRows(t, Map(keyOf, events)), Map(keyOf, rows), byId, latest)
  {
    assert events[..|events|] == events && Map(keyOf, events)[..|events|] == Map(keyOf, events);
  }

  /** One round of the first pass. */
  method StoreNext(keyOf: Event -> RowKey, ghost t: Index, ghost held: seq<Event>, ghost known: set<Bytes>, events: seq<Event>,
                   i: nat, rows: seq<Event>, byId: map<Bytes, nat>, latest: map<Bytes, int>)
    returns (rows': seq<Event>, byId': map<Bytes, nat>, latest': map<Bytes, int>)
    requires Faithful(keyOf) && i < |events| && StoredTo(keyOf, t, held, known, events, i, rows, byId, latest)
    ensures StoredTo(keyOf, t, held, known, events, i + 1, rows', byId', latest')
  {
    StoredStep(keyOf, t, held, known, events, i, rows, byId, latest);
    var event := events[i];
    if event.eventId in byId {
      return rows, byId, latest;
    }
    return rows + [event], byId[event.eventId := |rows|], RaiseLatest(latest, keyOf(event));
  }

  /** First pass of bulk insertion: stores the rows whose ID is new, with their IDs and timestamps. */
  method AppendNew(keyOf: Event -> RowKey, ghost t: Index, held: seq<Event>, ids: map<Bytes, nat>, latest: map<Bytes, int>,
                   events: seq<Event>)
    returns (rows: seq<Event>, byId: map<Bytes, nat>, roomLatestTs: map<Bytes, int>)
    requires Faithful(keyOf) && SameFront(t, Map(keyOf, held), ids, latest)
    ensures rows == held + FreshEvents(ids.Keys, events)
    ensures SameFront(InsertRows(t, Map(keyOf, events)), Map(keyOf, rows), byId, roomLatestTs)
  {
    rows, byId, roomLatestTs := held, ids, latest;
    var i := 0;
    StoredStart(keyOf, t, held, events, ids, latest);
    while i < |events|
      invariant 0 <= i <= |events|
      invariant StoredTo(keyOf, t, held, ids.Keys, events, i, rows, byId, roomLatestTs)
    {
      rows, byId, roomLatestTs := StoreNext(keyOf, t, held, ids.Keys, events, i, rows, byId, roomLatestTs);
      i := i + 1;
    }
    StoredEnd(keyOf, t, held, ids.Keys, events, rows, byId, roomLatestTs);
  }

  /** What placing a new row asks of the lists. */
  ghost predicate PlacesNewRow(t: Index, k: RowKey) {
    && Placeable(t.ks + [k], Bucket(t.byRoomStream, k.room))
    && Sorted(ByTime(), Bucket(t.byRoomTime, k.room))
    && Placeable(t.ks + [k], t.streamOrder)
  }

  lemma NewRowPlaces(t: Index, k: RowKey)
    requires Consistent(t)
    ensures PlacesNewRow(t, k)
  {
    assert StreamList(t.ks, Some(k.room), Bucket(t.byRoomStream, k.room));
    assert TimeList(t.ks, k.room, Bucket(t.byRoomTime, k.room));
    GrownOrder(t.ks, k, Bucket(t.byRoomStream, k.room));
    GrownOrder(t.ks, k, t.streamOrder);
  }

  /** What the passes of bulk insertion leave. */
  ghost predicate BulkInserted(t: Index, batch: seq<RowKey>, t': Index) {
    && SameFront(InsertRows(t, batch), t'.ks, t'.byId, t'.roomLatestTs)
    && t'.streamOrder == BulkStream(t'.ks, None, |t.ks|, t.streamOrder)
    && NoEmptyBucket(t'.byRoomStream) && NoEmptyBucket(t'.byRoomTime) && NoEmptyTarget(t'.relationChildren)
    && (forall r :: Bucket(t'.byRoomStream, r) == BulkStream(t'.ks, Some(r), |t.ks|, Bucket(t.byRoomStream, r)))
    && (forall r :: Bucket(t'.byRoomTime, r) == BulkTime(t'.ks, r, |t.ks|, Bucket(t.byRoomTime, r)))
    && (forall key :: Children(t'.relationChildren, key) ==
                        BulkChildren(t'.ks, key, |t.ks|, Children(t.relationChildren, key)))
  }

  /** A table whose lists were merged in bulk is the table that inserting one by one gives. */
  lemma BulkIsInserts(t: Index, batch: seq<RowKey>, t': Index)
    requires Consistent(t) && Consistent(InsertRows(t, batch)) && BulkInserted(t, batch, t')
    ensures t' == InsertRows(t, batch)
  {
    var b := InsertRows(t, batch);
    BulkStreamIsInserts(t, batch, None);
    forall r ensures Bucket(t'.byRoomStream, r) == Bucket(b.byRoomStream, r) {
      BulkStreamIsInserts(t, batch, Some(r));
    }
    BucketsDetermine(t'.byRoomStream, b.byRoomStream);
    forall r ensures Bucket(t'.byRoomTime, r) == Bucket(b.byRoomTime, r) {
      BulkTimeIsInserts(t, batch, r);
    }
    BucketsDetermine(t'.byRoomTime, b.byRoomTime);
    forall key ensures Children(t'.relationChildren, key) == Children(b.relationChildren, key) {
      BulkChildrenIsInserts(t, batch, key);
    }
    ChildrenDetermine(t'.relationChildren, b.relationChildren);
  }

  lemma KeptAtMost(removed: seq<bool>)
    ensures |Kept(removed)| <= |removed|
  {
    KeptToExact(removed, |removed|);
  }

  lemma {:induction false} AllKeptTo(removed: seq<bool>, n: nat)
    requires n <= |removed| && forall i :: 0 <= i < |removed| ==> !removed[i]
    ensures |KeptTo(removed, n)| == n && forall q :: 0 <= q < n ==> KeptTo(removed, n)[q] == q
  {
    if n > 0 { AllKeptTo(removed, n - 1); }
  }

  /** Removing nothing keeps every row where it is. */
  lemma AllKept(rows: seq<Event>, removed: seq<bool>)
    requires |removed| == |rows| && forall i :: 0 <= i < |removed| ==> !removed[i]
    ensures KeptOf(rows, removed) == rows
  {
    AllKeptTo(removed, |removed|);
  }

  lemma {:induction false} FilterMapIdentity<T>(f: T -> Option<T>, s: seq<T>)
    requires forall i :: 0 <= i < |s| ==> f(s[i]) == Some(s[i])
    ensures FilterMap(f, s) == s
  {
    if s != [] {
      FilterMapIdentity(f, s[..|s| - 1]);
      assert s == s[..|s| - 1] + [s[|s| - 1]];
    }
  }

  lemma NothingMoves(removed: seq<bool>, p: nat)
    requires p < |removed| && forall i :: 0 <= i < |removed| ==> !removed[i]
    ensures NewPosition(Remap(removed), p) == Some(p)
  {
    RemapKept(removed, p);
    AllKeptTo(removed, |removed|);
  }

  lemma PositionsStay(removed: seq<bool>, s: seq<nat>)
    requires (forall i :: 0 <= i < |removed| ==> !removed[i]) && forall p :: p in s ==> p < |removed|
    ensures FilterMap(Renumber(Remap(removed)), s) == s
  {
    forall i | 0 <= i < |s| ensures Renumber(Remap(removed))(s[i]) == Some(s[i]) {
      assert s[i] in s;
      NothingMoves(removed, s[i]);
    }
    FilterMapIdentity(Renumber(Remap(removed)), s);
  }

  lemma EntriesStay(removed: seq<bool>, s: seq<TimeEntry>)
    requires (forall i :: 0 <= i < |removed| ==> !removed[i]) && forall e :: e in s ==> e.position < |removed|
    ensures FilterMap(RenumberEntry(Remap(removed)), s) == s
  {
    forall i | 0 <= i < |s| ensures RenumberEntry(Remap(removed))(s[i]) == Some(s[i]) {
      assert s[i] in s;
      NothingMoves(removed, s[i].position);
    }
    FilterMapIdentity(RenumberEntry(Remap(removed)), s);
  }

  lemma IdsStay(ks: seq<RowKey>, removed: seq<bool>, m: map<Bytes, nat>)
    requires IdsExact(ks, m) && |removed| == |ks| && forall i :: 0 <= i < |removed| ==> !removed[i]
    ensures CompactIds(Remap(removed), m) == m
  {
    forall id | id in m ensures NewPosition(Remap(removed), m[id]) == Some(m[id]) {
      NothingMoves(removed, m[id]);
    }
  }

  /** Removing nothing leaves the table as it is. */
  lemma EraseNothing(t: Index, removed: seq<bool>)
    requires Consistent(t) && |removed| == |t.ks| && forall i :: 0 <= i < |removed| ==> !removed[i]
    ensures EraseRows(t, removed) == t
  {
    var t', remap := EraseRows(t, removed), Remap(removed);
    AllKeptTo(removed, |removed|);
    assert t'.ks == t.ks;
    IdsStay(t.ks, removed, t.byId);
    PositionsStay(removed, t.streamOrder);
    forall r
      ensures Bucket(t'.byRoomStream, r) == Bucket(t.byRoomStream, r)
      ensures Bucket(t'.byRoomTime, r) == Bucket(t.byRoomTime, r)
    {
      assert StreamList(t.ks, Some(r), Bucket(t.byRoomStream, r));
      assert TimeList(t.ks, r, Bucket(t.byRoomTime, r));
      CompactBucket(Renumber(remap), t.byRoomStream, r);
      CompactBucket(RenumberEntry(remap), t.byRoomTime, r);
      PositionsStay(removed, Bucket(t.byRoomStream, r));
      EntriesStay(removed, Bucket(t.byRoomTime, r));
    }
    BucketsDetermine(t'.byRoomStream, t.byRoomStream);
    BucketsDetermine(t'.byRoomTime, t.byRoomTime);
    forall key ensures Children(t'.relationChildren, key) == Children(t.relationChildren, key) {
      assert ChildList(t.ks, key, Children(t.relationChildren, key));
      CompactChild(remap, t.relationChildren, key);
      PositionsStay(removed, Children(t.relationChildren, key));
    }
    ChildrenDetermine(t'.relationChildren, t.relationChildren);
    LatestMapExact(t.ks);
    LatestMapDetermined(t.ks, t.roomLatestTs, LatestMap(t.ks));
  }

  lemma ModifiedPlaces(t: Index, p: nat, k: RowKey)
    requires Consistent(t) && p < |t.ks| && SameIdentity(t.ks[p], k)
    ensures Reindexable(t, p, k)
  {
    var was := t.ks[p];
    assert StreamList(t.ks, Some(was.room), Bucket(t.byRoomStream, was.room));
    assert TimeList(t.ks, was.room, Bucket(t.byRoomTime, was.room));
    SameOrders(t.ks, p, k, Bucket(t.byRoomStream, was.room));
    DroppedStream(t.ks, p, k, t.byRoomStream, k.room);
    DroppedTime(t.ks, p, k, t.byRoomTime, k.room);
    ModifyRowKeeps(t, p, k);
    OtherRoomsLatest(t.ks, p, k, t.roomLatestTs);
    if k.room == was.room && LatestTs(k) == LatestTs(was) { SameLatest(t.ks, p, k, t.roomLatestTs); }
  }

  lemma OtherRoomsLatest(ks: seq<RowKey>, p: nat, k: RowKey, m: map<Bytes, int>)
    requires p < |ks| && LatestExact(ks, m)
    ensures LatestBut(ks[p := k], m, {ks[p].room, k.room})
  {
    var ks' := ks[p := k];
    forall r | r !in {ks[p].room, k.room} ensures IsLatest(ks', r, LatestIn(m, r)) {
      var v := LatestIn(m, r);
      assert IsLatest(ks, r, v);
      if v > 0 {
        var q: nat :| Selected(ks, Some(r), q) && LatestTs(ks[q]) == v;
        assert Selected(ks', Some(r), q) && LatestTs(ks'[q]) == v;
      }
      forall q: nat | Selected(ks', Some(r), q) ensures LatestTs(ks'[q]) <= v {
        assert Selected(ks, Some(r), q);
      }
    }
  }

  lemma SameLatest(ks: seq<RowKey>, p: nat, k: RowKey, m: map<Bytes, int>)
    requires p < |ks| && LatestExact(ks, m) && k.room == ks[p].room && LatestTs(k) == LatestTs(ks[p])
    ensures m == LatestMap(ks[p := k])
  {
    var ks' := ks[p := k];
    forall r ensures IsLatest(ks', r, LatestIn(m, r)) {
      var v := LatestIn(m, r);
      assert IsLatest(ks, r, v);
      if v > 0 {
        var q: nat :| Selected(ks, Some(r), q) && LatestTs(ks[q]) == v;
        assert Selected(ks', Some(r), q) && LatestTs(ks'[q]) == v;
      }
      forall q: nat | Selected(ks', Some(r), q) ensures LatestTs(ks'[q]) <= v {
        assert Selected(ks, Some(r), q);
      }
    }
    LatestMapExact(ks');
    LatestMapDetermined(ks', m, LatestMap(ks'));
  }

  lemma UniqueId(t: Index, p: nat)
    requires Consistent(t) && p < |t.ks|
    ensures forall q :: 0 <= q < |t.ks| && t.ks[q].id == t.ks[p].id ==> q == p
  {
    forall q | 0 <= q < |t.ks| && t.ks[q].id == t.ks[p].id ensures q == p {
      assert t.byId[t.ks[q].id] == q && t.byId[t.ks[p].id] == p;
    }
  }

  lemma RoomOrdering(ks: seq<RowKey>, room: Bytes, s: seq<nat>)
    requires StreamList(ks, Some(room), s)
    ensures forall i :: 0 <= i < |s| ==> s[i] < |ks|
    ensures forall i, j :: 0 <= i < j < |s| ==> ks[s[i]].order <= ks[s[j]].order
  {
    forall i | 0 <= i < |s| ensures s[i] < |ks| {
      assert s[i] in s;
    }
    forall i, j | 0 <= i < j < |s| ensures ks[s[i]].order <= ks[s[j]].order {
      assert !ByOrder(ks)(s[j], s[i]);
    }
  }
}
