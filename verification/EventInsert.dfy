/**
 Adding rows to the event indexes, one at a time, and what that keeps. A row is placed after the
 rows already there with a stream ordering no greater than its own.
 */
module EventInsert {
  import opened Prelude
  import opened SortedLists
  import opened EventIndex

  function PlaceStream(ks: seq<RowKey>, m: map<Bytes, seq<nat>>, p: nat): map<Bytes, seq<nat>>
    requires p < |ks|
  {
    m[ks[p].room := Merge<nat>(ByOrder(ks), Bucket(m, ks[p].room), [p])]
  }

  function PlaceTime(ks: seq<RowKey>, m: map<Bytes, seq<TimeEntry>>, p: nat): map<Bytes, seq<TimeEntry>>
    requires p < |ks|
  {
    match TimeOf(ks[p], p)
    case None => m
    case Some(e) => m[ks[p].room := Merge(ByTime(), Bucket(m, ks[p].room), [e])]
  }

  function PlaceChild(ks: seq<RowKey>, m: map<Bytes, RelationLists>, p: nat): map<Bytes, RelationLists>
    requires p < |ks|
  {
    match ks[p].relation
    case None => m
    case Some(key) => SetChildren(m, key, Children(m, key) + [p])
  }

  function RaiseLatest(m: map<Bytes, int>, k: RowKey): map<Bytes, int> {
    var v := LatestTs(k);
    if v <= 0 then m
    else m[k.room := if LatestIn(m, k.room) < v then v else LatestIn(m, k.room)]
  }

  /** Stores the row `k` at the next position. */
  function AddRow(t: Index, k: RowKey): Index {
    var p: nat := |t.ks|;
    var ks := t.ks + [k];
    Index(ks, t.byId[k.id := p],
          Merge<nat>(ByOrder(ks), t.streamOrder, [p]),
          PlaceStream(ks, t.byRoomStream, p),
          PlaceTime(ks, t.byRoomTime, p),
          PlaceChild(ks, t.relationChildren, p),
          RaiseLatest(t.roomLatestTs, k))
  }

  /** Stores the row unless its event ID is already held. */
  function InsertRow(t: Index, k: RowKey): Index {
    if k.id in t.byId then t else AddRow(t, k)
  }

  /** Inserts the rows one by one, in order. */
  function InsertRows(t: Index, batch: seq<RowKey>): Index {
    if batch == [] then t else InsertRow(InsertRows(t, batch[..|batch| - 1]), batch[|batch| - 1])
  }

  // ---------------------------------------------------------------- lists that lack only row `p`

  ghost predicate StreamListBut(ks: seq<RowKey>, room: Option<Bytes>, p: nat, s: seq<nat>) {
    && NoDup(s)
    && Sorted(ByOrder(ks), s)
    && (forall q: nat :: q in s <==> Selected(ks, room, q) && q != p)
  }

  ghost predicate TimeListBut(ks: seq<RowKey>, room: Bytes, p: nat, s: seq<TimeEntry>) {
    && NoDup(s)
    && Sorted(ByTime(), s)
    && (forall e :: e in s <==>
          && Selected(ks, Some(room), e.position) && e.position != p
          && TimeOf(ks[e.position], e.position) == Some(e))
  }

  ghost predicate ChildListBut(ks: seq<RowKey>, key: RelationKey, p: nat, s: seq<nat>) {
    && NoDup(s)
    && (forall q: nat :: q in s <==> q < |ks| && ks[q].relation == Some(key) && q != p)
  }

  lemma StreamListPlaced(ks: seq<RowKey>, room: Option<Bytes>, p: nat, s: seq<nat>)
    requires StreamListBut(ks, room, p, s) && Selected(ks, room, p)
    ensures StreamList(ks, room, Merge<nat>(ByOrder(ks), s, [p]))
  {
    OrdersAreStrictWeak(ks);
    InsertKeeps(ByOrder(ks), s, p);
  }

  /** A row is placed behind every row it ties with, also one added after it. */
  lemma PlacedAfterTie(ks: seq<RowKey>, p: nat, s: seq<nat>, i: nat)
    requires Sorted(ByOrder(ks), s) && i < |s| && OrderAt(ks, s[i]) == OrderAt(ks, p) && s[i] >= p
    ensures !TiesAsAdded(ks, Merge<nat>(ByOrder(ks), s, [p]))
  {
    OrdersAreStrictWeak(ks);
    var lt := ByOrder(ks);
    var r := Merge<nat>(lt, s, [p]);
    InsertIsMerge(lt, s, p);
    var j := UpperBound(lt, s, p);
    assert j < |s| ==> lt(p, s[j]) && !lt(p, s[i]);
    assert i < j;
    assert r == s[..j] + [p] + s[j..];
    assert r[i] == s[i] && r[j] == p;
    assert !lt(r[i], r[j]) && !ByPosition()(r[i], r[j]);
  }

  /** Placing a row keeps ties as added exactly when no tied row already listed was added after it. */
  lemma PlacedTies(ks: seq<RowKey>, p: nat, s: seq<nat>)
    requires Sorted(ByOrder(ks), s) && TiesAsAdded(ks, s) && p !in s
    ensures TiesAsAdded(ks, Merge<nat>(ByOrder(ks), s, [p])) <==>
            forall q :: q in s && OrderAt(ks, q) == OrderAt(ks, p) ==> q < p
  {
    OrdersAreStrictWeak(ks);
    var lt := ByOrder(ks);
    var r := Merge(lt, s, [p]);
    if forall q :: q in s && OrderAt(ks, q) == OrderAt(ks, p) ==> q < p {
      MergeTies(lt, ByPosition(), s, [p]);
    } else {
      var q :| q in s && OrderAt(ks, q) == OrderAt(ks, p) && q >= p;
      var i :| 0 <= i < |s| && s[i] == q;
      PlacedAfterTie(ks, p, s, i);
    }
  }

  lemma TimeListPlaced(ks: seq<RowKey>, room: Bytes, p: nat, s: seq<TimeEntry>)
    requires TimeListBut(ks, room, p, s) && Selected(ks, Some(room), p)
    ensures TimeOf(ks[p], p).Some? ==> TimeList(ks, room, Merge(ByTime(), s, [TimeOf(ks[p], p).value]))
    ensures TimeOf(ks[p], p).None? ==> TimeList(ks, room, s)
  {
    OrdersAreStrictWeak(ks);
    if TimeOf(ks[p], p).Some? {
      InsertKeeps(ByTime(), s, TimeOf(ks[p], p).value);
    }
  }

  lemma PlaceStreamExact(ks: seq<RowKey>, m: map<Bytes, seq<nat>>, p: nat)
    requires p < |ks| && NoEmptyBucket(m)
    requires forall r :: StreamListBut(ks, Some(r), p, Bucket(m, r))
    ensures RoomStreamsExact(ks, PlaceStream(ks, m, p))
  {
    var room := ks[p].room;
    var m' := PlaceStream(ks, m, p);
    MergeElements(ByOrder(ks), Bucket(m, room), [p]);
    forall r ensures StreamList(ks, Some(r), Bucket(m', r)) {
      assert StreamListBut(ks, Some(r), p, Bucket(m, r));
      if r == room { StreamListPlaced(ks, Some(r), p, Bucket(m, r)); }
    }
  }

  lemma PlaceTimeExact(ks: seq<RowKey>, m: map<Bytes, seq<TimeEntry>>, p: nat)
    requires p < |ks| && NoEmptyBucket(m)
    requires forall r :: TimeListBut(ks, r, p, Bucket(m, r))
    ensures RoomTimesExact(ks, PlaceTime(ks, m, p))
  {
    var room := ks[p].room;
    var m' := PlaceTime(ks, m, p);
    if TimeOf(ks[p], p).Some? {
      MergeElements(ByTime(), Bucket(m, room), [TimeOf(ks[p], p).value]);
    }
    forall r ensures TimeList(ks, r, Bucket(m', r)) {
      assert TimeListBut(ks, r, p, Bucket(m, r));
      if r == room { TimeListPlaced(ks, r, p, Bucket(m, r)); }
    }
  }

  lemma PlaceChildExact(ks: seq<RowKey>, m: map<Bytes, RelationLists>, p: nat)
    requires p < |ks| && NoEmptyTarget(m)
    requires forall key :: ChildListBut(ks, key, p, Children(m, key))
    ensures ChildrenExact(ks, PlaceChild(ks, m, p))
  {
    var m' := PlaceChild(ks, m, p);
    forall key ensures ChildList(ks, key, Children(m', key)) {
      var s := Children(m, key);
      assert ChildListBut(ks, key, p, s);
      if ks[p].relation.Some? {
        var own := ks[p].relation.value;
        ChildrenAfterSet(m, own, Children(m, own) + [p], key);
      }
    }
    if ks[p].relation.Some? {
      var own := ks[p].relation.value;
      ChildrenAfterSet(m, own, Children(m, own) + [p], own);
    }
  }

  // ---------------------------------------------------------------- one new row

  lemma GrownOrder(ks: seq<RowKey>, k: RowKey, s: seq<nat>)
    requires forall p :: p in s ==> p < |ks|
    ensures Sorted(ByOrder(ks), s) <==> Sorted(ByOrder(ks + [k]), s)
    ensures TiesAsAdded(ks, s) <==> TiesAsAdded(ks + [k], s)
  {
    assert forall p :: p in s ==> OrderAt(ks, p) == OrderAt(ks + [k], p);
  }

  lemma StreamListGrown(ks: seq<RowKey>, k: RowKey, room: Option<Bytes>, s: seq<nat>)
    requires StreamList(ks, room, s)
    ensures StreamListBut(ks + [k], room, |ks|, s)
    ensures TiesAsAdded(ks, s) <==> TiesAsAdded(ks + [k], s)
  {
    GrownOrder(ks, k, s);
  }

  lemma AddedLatest(ks: seq<RowKey>, k: RowKey, m: map<Bytes, int>)
    requires LatestExact(ks, m)
    ensures LatestExact(ks + [k], RaiseLatest(m, k))
  {
    var ks' := ks + [k];
    var m' := RaiseLatest(m, k);
    forall r ensures IsLatest(ks', r, LatestIn(m', r)) {
      var v := LatestIn(m, r);
      assert IsLatest(ks, r, v);
      if v > 0 {
        var q: nat :| Selected(ks, Some(r), q) && LatestTs(ks[q]) == v;
        assert Selected(ks', Some(r), q) && LatestTs(ks'[q]) == v;
      }
      forall q: nat | Selected(ks', Some(r), q) ensures LatestTs(ks'[q]) <= LatestIn(m', r) {
        if q < |ks| { assert Selected(ks, Some(r), q); }
      }
      assert r == k.room ==> Selected(ks', Some(r), |ks|);
    }
  }

  lemma AddedRoomStreams(ks: seq<RowKey>, k: RowKey, m: map<Bytes, seq<nat>>)
    requires RoomStreamsExact(ks, m)
    ensures RoomStreamsExact(ks + [k], PlaceStream(ks + [k], m, |ks|))
    ensures RoomsAsAdded(ks, m) ==> RoomsAsAdded(ks + [k], PlaceStream(ks + [k], m, |ks|))
  {
    var ks', p: nat := ks + [k], |ks|;
    forall r
      ensures StreamListBut(ks', Some(r), p, Bucket(m, r))
      ensures TiesAsAdded(ks, Bucket(m, r)) ==> TiesAsAdded(ks', Bucket(m, r))
    {
      assert StreamList(ks, Some(r), Bucket(m, r));
      StreamListGrown(ks, k, Some(r), Bucket(m, r));
    }
    PlaceStreamExact(ks', m, p);
    if RoomsAsAdded(ks, m) {
      forall r ensures TiesAsAdded(ks', Bucket(PlaceStream(ks', m, p), r)) {
        assert TiesAsAdded(ks, Bucket(m, r));
        if r == k.room {
          assert StreamListBut(ks', Some(r), p, Bucket(m, r));
          PlacedTies(ks', p, Bucket(m, r));
        }
      }
    }
  }

  lemma AddedRoomTimes(ks: seq<RowKey>, k: RowKey, m: map<Bytes, seq<TimeEntry>>)
    requires RoomTimesExact(ks, m)
    ensures RoomTimesExact(ks + [k], PlaceTime(ks + [k], m, |ks|))
  {
    var ks', p: nat := ks + [k], |ks|;
    forall r ensures TimeListBut(ks', r, p, Bucket(m, r)) {
      assert TimeList(ks, r, Bucket(m, r));
    }
    PlaceTimeExact(ks', m, p);
  }

  lemma AppendedAscending(ks: seq<RowKey>, m: map<Bytes, RelationLists>, p: nat)
    requires p < |ks| && ChildrenAsAdded(m)
    requires forall key, q :: q in Children(m, key) ==> q < p
    ensures ChildrenAsAdded(PlaceChild(ks, m, p))
  {
    if ks[p].relation.Some? {
      var key := ks[p].relation.value;
      var s := Children(m, key);
      assert Ascending(s + [p]) by {
        assert Ascending(s);
        assert forall i :: 0 <= i < |s| ==> s[i] in s;
      }
      forall key' ensures Ascending(Children(PlaceChild(ks, m, p), key')) {
        ChildrenAfterSet(m, key, s + [p], key');
        assert Ascending(Children(m, key'));
      }
    }
  }

  lemma AddedChildren(ks: seq<RowKey>, k: RowKey, m: map<Bytes, RelationLists>)
    requires ChildrenExact(ks, m)
    ensures ChildrenExact(ks + [k], PlaceChild(ks + [k], m, |ks|))
    ensures ChildrenAsAdded(m) ==> ChildrenAsAdded(PlaceChild(ks + [k], m, |ks|))
  {
    var ks', p: nat := ks + [k], |ks|;
    forall key ensures ChildListBut(ks', key, p, Children(m, key)) {
      assert ChildList(ks, key, Children(m, key));
    }
    PlaceChildExact(ks', m, p);
    if ChildrenAsAdded(m) { AppendedAscending(ks', m, p); }
  }

  lemma AddedStreamOrder(ks: seq<RowKey>, k: RowKey, s: seq<nat>)
    requires StreamList(ks, None, s) && TiesAsAdded(ks, s)
    ensures StreamList(ks + [k], None, Merge<nat>(ByOrder(ks + [k]), s, [|ks|]))
    ensures TiesAsAdded(ks + [k], Merge<nat>(ByOrder(ks + [k]), s, [|ks|]))
  {
    StreamListGrown(ks, k, None, s);
    StreamListPlaced(ks + [k], None, |ks|, s);
    PlacedTies(ks + [k], |ks|, s);
  }

  /** Storing a new row keeps every index exact, and in the order added if it was. */
  lemma AddRowKeeps(t: Index, k: RowKey)
    requires Consistent(t) && k.id !in t.byId
    ensures Consistent(AddRow(t, k))
    ensures AsAdded(t) ==> AsAdded(AddRow(t, k))
  {
    assert IdsExact(t.ks + [k], t.byId[k.id := |t.ks|]);
    AddedStreamOrder(t.ks, k, t.streamOrder);
    AddedRoomStreams(t.ks, k, t.byRoomStream);
    AddedRoomTimes(t.ks, k, t.byRoomTime);
    AddedChildren(t.ks, k, t.relationChildren);
    AddedLatest(t.ks, k, t.roomLatestTs);
  }

  lemma {:induction false} InsertRowsKeeps(t: Index, batch: seq<RowKey>)
    requires Consistent(t)
    ensures Consistent(InsertRows(t, batch))
    ensures AsAdded(t) ==> AsAdded(InsertRows(t, batch))
  {
    if batch != [] {
      var before := InsertRows(t, batch[..|batch| - 1]);
      InsertRowsKeeps(t, batch[..|batch| - 1]);
      if batch[|batch| - 1].id !in before.byId { AddRowKeeps(before, batch[|batch| - 1]); }
    }
  }

  lemma EmptyKeeps()
    ensures Consistent(EMPTY) && AsAdded(EMPTY)
  {
  }
}
