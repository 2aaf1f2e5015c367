/**
 Changing a row in place. Its event ID and stream ordering cannot change, so it leaves and re-enters
 only the room, time and relation indexes. Every index stays exact. A row that re-enters a list is
 placed as if newly added, so the order the rows were added in survives exactly when no row of the
 same stream ordering (or, for relations, no row at all) already listed there was added after it.
 */
module EventModify {
  import opened Prelude
  import opened SortedLists
  import opened EventIndex
  import opened EventInsert
  import opened EventErase

  function Except<T(==)>(x: T): T -> Option<T> {
    (y: T) => if y == x then None else Some(y)
  }

  function Without<T(==)>(s: seq<T>, x: T): seq<T> {
    FilterMap(Except(x), s)
  }

  function DropStream(m: map<Bytes, seq<nat>>, room: Bytes, p: nat): map<Bytes, seq<nat>> {
    SetBucket(m, room, Without(Bucket(m, room), p))
  }

  function DropTime(m: map<Bytes, seq<TimeEntry>>, room: Bytes, entry: Option<TimeEntry>): map<Bytes, seq<TimeEntry>> {
    match entry
    case None => m
    case Some(e) => SetBucket(m, room, Without(Bucket(m, room), e))
  }

  function DropChild(m: map<Bytes, RelationLists>, relation: Option<RelationKey>, p: nat): map<Bytes, RelationLists> {
    match relation
    case None => m
    case Some(key) => SetChildren(m, key, Without(Children(m, key), p))
  }

  predicate SameIdentity(k: RowKey, k': RowKey) {
    k'.id == k.id && k'.order == k.order
  }

  function ModifyRow(t: Index, p: nat, k: RowKey): Index
    requires p < |t.ks| && SameIdentity(t.ks[p], k)
  {
    var was, ks := t.ks[p], t.ks[p := k];
    Index(ks, t.byId, t.streamOrder,
          if k.room == was.room then t.byRoomStream
          else PlaceStream(ks, DropStream(t.byRoomStream, was.room, p), p),
          if k.room == was.room && TimeOf(k, p) == TimeOf(was, p) then t.byRoomTime
          else PlaceTime(ks, DropTime(t.byRoomTime, was.room, TimeOf(was, p)), p),
          if k.relation == was.relation then t.relationChildren
          else PlaceChild(ks, DropChild(t.relationChildren, was.relation, p), p),
          LatestMap(ks))
  }

  /** No row of the room it moves to has its stream ordering and was added after it. */
  predicate RoomOrderSafe(ks: seq<RowKey>, p: nat, k: RowKey)
    requires p < |ks|
  {
    k.room == ks[p].room || forall q :: p <= q < |ks| && ks[q].room == k.room ==> ks[q].order != k.order
  }

  /** No row with its new relation was added after it. */
  predicate ChildOrderSafe(ks: seq<RowKey>, p: nat, k: RowKey)
    requires p < |ks|
  {
    k.relation == ks[p].relation || k.relation.None? || forall q :: p <= q < |ks| ==> ks[q].relation != k.relation
  }

  lemma WithoutKeeps<T>(s: seq<T>, x: T)
    requires NoDup(s)
    ensures NoDup(Without(s, x))
    ensures forall y :: y in Without(s, x) <==> y in s && y != x
  {
    FilterMapPairwise(Except(x), (a, b) => a != b, (a, b) => a != b, s);
    FilterMapElements(Except(x), s);
    forall y ensures y in Without(s, x) <==> y in s && y != x {
      if y in s && y != x {
        var i :| 0 <= i < |s| && s[i] == y;
        assert Except(x)(s[i]) == Some(y);
      }
    }
  }

  lemma WithoutSorted<T>(lt: (T, T) -> bool, tie: (T, T) -> bool, s: seq<T>, x: T)
    requires Sorted(lt, s)
    ensures Sorted(lt, Without(s, x))
    ensures TiesOrdered(lt, tie, s) ==> TiesOrdered(lt, tie, Without(s, x))
  {
    FilterMapPairwise(Except(x), (a, b) => !lt(b, a), (a, b) => !lt(b, a), s);
    if TiesOrdered(lt, tie, s) {
      FilterMapPairwise(Except(x), (a, b) => !lt(a, b) ==> tie(a, b), (a, b) => !lt(a, b) ==> tie(a, b), s);
    }
  }

  lemma BucketAfterSet<T>(m: map<Bytes, seq<T>>, r: Bytes, s: seq<T>, r': Bytes)
    ensures Bucket(SetBucket(m, r, s), r') == if r' == r then s else Bucket(m, r')
    ensures NoEmptyBucket(m) ==> NoEmptyBucket(SetBucket(m, r, s))
  {
  }

  // ---------------------------------------------------------------- streams

  lemma SameOrders(ks: seq<RowKey>, p: nat, k: RowKey, s: seq<nat>)
    requires p < |ks| && SameIdentity(ks[p], k)
    ensures Sorted(ByOrder(ks), s) <==> Sorted(ByOrder(ks[p := k]), s)
    ensures TiesAsAdded(ks, s) <==> TiesAsAdded(ks[p := k], s)
  {
    assert forall q: nat :: OrderAt(ks, q) == OrderAt(ks[p := k], q);
  }

  lemma WithoutStream(ks: seq<RowKey>, room: Bytes, p: nat, s: seq<nat>)
    requires StreamList(ks, Some(room), s)
    ensures NoDup(Without(s, p)) && Sorted(ByOrder(ks), Without(s, p))
    ensures forall q: nat :: q in Without(s, p) <==> q in s && q != p
    ensures TiesAsAdded(ks, s) ==> TiesAsAdded(ks, Without(s, p))
  {
    WithoutKeeps(s, p);
    WithoutSorted(ByOrder(ks), ByPosition(), s, p);
  }

  lemma DroppedStream(ks: seq<RowKey>, p: nat, k: RowKey, m: map<Bytes, seq<nat>>, r: Bytes)
    requires p < |ks| && SameIdentity(ks[p], k) && RoomStreamsExact(ks, m)
    ensures var s := Bucket(DropStream(m, ks[p].room, p), r);
            && StreamListBut(ks[p := k], Some(r), p, s)
            && (TiesAsAdded(ks, Bucket(m, r)) ==> TiesAsAdded(ks[p := k], s))
  {
    var s := Bucket(m, r);
    assert StreamList(ks, Some(r), s);
    BucketAfterSet(m, ks[p].room, Without(Bucket(m, ks[p].room), p), r);
    if r == ks[p].room {
      WithoutStream(ks, r, p, s);
    }
    SameOrders(ks, p, k, Bucket(DropStream(m, ks[p].room, p), r));
  }

  lemma ModifiedStreams(ks: seq<RowKey>, p: nat, k: RowKey, m: map<Bytes, seq<nat>>)
    requires p < |ks| && SameIdentity(ks[p], k) && RoomStreamsExact(ks, m) && k.room != ks[p].room
    ensures RoomStreamsExact(ks[p := k], PlaceStream(ks[p := k], DropStream(m, ks[p].room, p), p))
  {
    var m1 := DropStream(m, ks[p].room, p);
    forall r ensures StreamListBut(ks[p := k], Some(r), p, Bucket(m1, r)) {
      DroppedStream(ks, p, k, m, r);
    }
    BucketAfterSet(m, ks[p].room, Without(Bucket(m, ks[p].room), p), ks[p].room);
    PlaceStreamExact(ks[p := k], m1, p);
  }

  lemma ModifiedStreamTies(ks: seq<RowKey>, p: nat, k: RowKey, m: map<Bytes, seq<nat>>)
    requires p < |ks| && SameIdentity(ks[p], k) && RoomStreamsExact(ks, m) && k.room != ks[p].room
    requires RoomsAsAdded(ks, m)
    ensures RoomsAsAdded(ks[p := k], PlaceStream(ks[p := k], DropStream(m, ks[p].room, p), p))
            <==> RoomOrderSafe(ks, p, k)
  {
    var ks', m1 := ks[p := k], DropStream(m, ks[p].room, p);
    var m' := PlaceStream(ks', m1, p);
    var s := Bucket(m1, k.room);
    forall r ensures r != k.room ==> TiesAsAdded(ks', Bucket(m', r)) {
      assert TiesAsAdded(ks, Bucket(m, r));
      DroppedStream(ks, p, k, m, r);
    }
    assert TiesAsAdded(ks, Bucket(m, k.room));
    DroppedStream(ks, p, k, m, k.room);
    PlacedTies(ks', p, s);
    assert TiesAsAdded(ks', Bucket(m', k.room)) <==> forall q :: q in s && OrderAt(ks', q) == OrderAt(ks', p) ==> q < p;
    RoomOrderIs(ks, p, k, s);
  }

  lemma RoomOrderIs(ks: seq<RowKey>, p: nat, k: RowKey, s: seq<nat>)
    requires p < |ks| && k.room != ks[p].room && StreamListBut(ks[p := k], Some(k.room), p, s)
    ensures RoomOrderSafe(ks, p, k) <==>
            forall q :: q in s && OrderAt(ks[p := k], q) == OrderAt(ks[p := k], p) ==> q < p
  {
    var ks' := ks[p := k];
    if q :| q in s && OrderAt(ks', q) == OrderAt(ks', p) && q >= p {
      assert Selected(ks', Some(k.room), q);
      assert ks[q].room == k.room && ks[q].order == k.order;
    }
    if !RoomOrderSafe(ks, p, k) {
      var q :| p <= q < |ks| && ks[q].room == k.room && ks[q].order == k.order;
      assert Selected(ks', Some(k.room), q) && q in s;
    }
  }

  lemma SameRoomStreams(ks: seq<RowKey>, p: nat, k: RowKey, m: map<Bytes, seq<nat>>)
    requires p < |ks| && SameIdentity(ks[p], k) && k.room == ks[p].room && RoomStreamsExact(ks, m)
    ensures RoomStreamsExact(ks[p := k], m)
    ensures RoomsAsAdded(ks, m) ==> RoomsAsAdded(ks[p := k], m)
  {
    forall r
      ensures StreamList(ks[p := k], Some(r), Bucket(m, r))
      ensures TiesAsAdded(ks, Bucket(m, r)) ==> TiesAsAdded(ks[p := k], Bucket(m, r))
    {
      assert StreamList(ks, Some(r), Bucket(m, r));
      SameOrders(ks, p, k, Bucket(m, r));
    }
  }

  // ---------------------------------------------------------------- times

  lemma DroppedTime(ks: seq<RowKey>, p: nat, k: RowKey, m: map<Bytes, seq<TimeEntry>>, r: Bytes)
    requires p < |ks| && RoomTimesExact(ks, m)
    ensures TimeListBut(ks[p := k], r, p, Bucket(DropTime(m, ks[p].room, TimeOf(ks[p], p)), r))
    ensures NoEmptyBucket(DropTime(m, ks[p].room, TimeOf(ks[p], p)))
  {
    var s := Bucket(m, r);
    assert TimeList(ks, r, s);
    if TimeOf(ks[p], p).Some? {
      var e := TimeOf(ks[p], p).value;
      BucketAfterSet(m, ks[p].room, Without(Bucket(m, ks[p].room), e), r);
      if r == ks[p].room {
        WithoutKeeps(s, e);
        WithoutSorted(ByTime(), ByTime(), s, e);
      }
    }
  }

  lemma ModifiedTimes(ks: seq<RowKey>, p: nat, k: RowKey, m: map<Bytes, seq<TimeEntry>>)
    requires p < |ks| && RoomTimesExact(ks, m)
    ensures RoomTimesExact(ks[p := k], PlaceTime(ks[p := k], DropTime(m, ks[p].room, TimeOf(ks[p], p)), p))
    ensures k.room == ks[p].room && TimeOf(k, p) == TimeOf(ks[p], p) ==> RoomTimesExact(ks[p := k], m)
  {
    var m1 := DropTime(m, ks[p].room, TimeOf(ks[p], p));
    DroppedTime(ks, p, k, m, ks[p].room);
    forall r ensures TimeListBut(ks[p := k], r, p, Bucket(m1, r)) {
      DroppedTime(ks, p, k, m, r);
    }
    PlaceTimeExact(ks[p := k], m1, p);
    if k.room == ks[p].room && TimeOf(k, p) == TimeOf(ks[p], p) {
      forall r ensures TimeList(ks[p := k], r, Bucket(m, r)) {
        assert TimeList(ks, r, Bucket(m, r));
      }
    }
  }

  // ---------------------------------------------------------------- relations

  lemma AscendingWithout(s: seq<nat>, p: nat)
    requires Ascending(s)
    ensures Ascending(Without(s, p))
  {
    FilterMapPairwise(Except(p), ByPosition(), ByPosition(), s);
    var r := Without(s, p);
    assert forall i, j :: 0 <= i < j < |r| ==> ByPosition()(r[i], r[j]);
  }

  lemma DroppedChild(ks: seq<RowKey>, p: nat, k: RowKey, m: map<Bytes, RelationLists>, key: RelationKey)
    requires p < |ks| && ChildrenExact(ks, m)
    ensures var s := Children(DropChild(m, ks[p].relation, p), key);
            && ChildListBut(ks[p := k], key, p, s)
            && (Ascending(Children(m, key)) ==> Ascending(s))
    ensures NoEmptyTarget(DropChild(m, ks[p].relation, p))
  {
    var s := Children(m, key);
    assert ChildList(ks, key, s);
    if ks[p].relation.Some? {
      var own := ks[p].relation.value;
      ChildrenAfterSet(m, own, Without(Children(m, own), p), key);
      if key == own {
        WithoutKeeps(s, p);
        if Ascending(s) {
          AscendingWithout(s, p);
        }
      }
    }
  }

  lemma ModifiedChildren(ks: seq<RowKey>, p: nat, k: RowKey, m: map<Bytes, RelationLists>)
    requires p < |ks| && ChildrenExact(ks, m)
    ensures ChildrenExact(ks[p := k], PlaceChild(ks[p := k], DropChild(m, ks[p].relation, p), p))
    ensures k.relation == ks[p].relation ==> ChildrenExact(ks[p := k], m)
  {
    var m1 := DropChild(m, ks[p].relation, p);
    forall key ensures ChildListBut(ks[p := k], key, p, Children(m1, key)) {
      DroppedChild(ks, p, k, m, key);
    }
    DroppedChild(ks, p, k, m, RelationKey([], Replace));
    PlaceChildExact(ks[p := k], m1, p);
    if k.relation == ks[p].relation {
      forall key ensures ChildList(ks[p := k], key, Children(m, key)) {
        assert ChildList(ks, key, Children(m, key));
      }
    }
  }

  lemma AppendedIsAscending(s: seq<nat>, p: nat)
    requires Ascending(s)
    ensures Ascending(s + [p]) <==> forall q :: q in s ==> q < p
  {
    var r := s + [p];
    assert forall i :: 0 <= i < |s| ==> s[i] in s;
    if Ascending(r) {
      forall q | q in s ensures q < p {
        var i :| 0 <= i < |s| && s[i] == q;
        assert r[i] < r[|s|];
      }
    }
  }

  lemma ModifiedChildOrder(ks: seq<RowKey>, p: nat, k: RowKey, m: map<Bytes, RelationLists>)
    requires p < |ks| && ChildrenExact(ks, m) && ChildrenAsAdded(m) && k.relation != ks[p].relation
    ensures ChildrenAsAdded(PlaceChild(ks[p := k], DropChild(m, ks[p].relation, p), p)) <==> ChildOrderSafe(ks, p, k)
  {
    var m1 := DropChild(m, ks[p].relation, p);
    var m' := PlaceChild(ks[p := k], m1, p);
    forall key ensures Ascending(Children(m1, key)) {
      assert Ascending(Children(m, key));
      DroppedChild(ks, p, k, m, key);
    }
    if k.relation.Some? {
      var own := k.relation.value;
      var s := Children(m1, own);
      DroppedChild(ks, p, k, m, own);
      forall key ensures Children(m', key) == if key == own then s + [p] else Children(m1, key) {
        ChildrenAfterSet(m1, own, s + [p], key);
      }
      AppendedIsAscending(s, p);
      AddedChildOrder(m1, m', own, p);
      ChildOrderIs(ks, p, k, s);
    }
  }

  lemma AddedChildOrder(m: map<Bytes, RelationLists>, m': map<Bytes, RelationLists>, own: RelationKey, p: nat)
    requires ChildrenAsAdded(m)
    requires forall key :: Children(m', key) == if key == own then Children(m, own) + [p] else Children(m, key)
    ensures ChildrenAsAdded(m') <==> Ascending(Children(m, own) + [p])
  {
    assert Ascending(Children(m', own)) <==> Ascending(Children(m, own) + [p]);
    forall key | key != own ensures Ascending(Children(m', key)) {
      assert Ascending(Children(m, key));
    }
  }

  lemma ChildOrderIs(ks: seq<RowKey>, p: nat, k: RowKey, s: seq<nat>)
    requires p < |ks| && k.relation.Some? && k.relation != ks[p].relation
    requires ChildListBut(ks[p := k], k.relation.value, p, s)
    ensures ChildOrderSafe(ks, p, k) <==> forall q :: q in s ==> q < p
  {
    if q :| q in s && q >= p {
      assert ks[q].relation == k.relation;
    }
    if !ChildOrderSafe(ks, p, k) {
      var q :| p <= q < |ks| && ks[q].relation == k.relation;
      assert q in s;
    }
  }

  // ---------------------------------------------------------------- the whole table

  /** Changing a row keeps every index exact. */
  lemma ModifyRowKeeps(t: Index, p: nat, k: RowKey)
    requires Consistent(t) && p < |t.ks| && SameIdentity(t.ks[p], k)
    ensures Consistent(ModifyRow(t, p, k))
  {
    var ks := t.ks[p := k];
    assert IdsExact(ks, t.byId);
    SameOrders(t.ks, p, k, t.streamOrder);
    assert StreamList(ks, None, t.streamOrder);
    if k.room == t.ks[p].room {
      SameRoomStreams(t.ks, p, k, t.byRoomStream);
    } else {
      ModifiedStreams(t.ks, p, k, t.byRoomStream);
    }
    ModifiedTimes(t.ks, p, k, t.byRoomTime);
    ModifiedChildren(t.ks, p, k, t.relationChildren);
    LatestMapExact(ks);
  }

  /** The order the rows were added in survives a change exactly when both placements are safe. */
  lemma ModifyRowOrder(t: Index, p: nat, k: RowKey)
    requires Consistent(t) && AsAdded(t) && p < |t.ks| && SameIdentity(t.ks[p], k)
    ensures AsAdded(ModifyRow(t, p, k)) <==> RoomOrderSafe(t.ks, p, k) && ChildOrderSafe(t.ks, p, k)
  {
    if k.room == t.ks[p].room {
      SameRoomStreams(t.ks, p, k, t.byRoomStream);
    } else {
      ModifiedStreamTies(t.ks, p, k, t.byRoomStream);
    }
    if k.relation != t.ks[p].relation {
      ModifiedChildOrder(t.ks, p, k, t.relationChildren);
    }
  }
}
