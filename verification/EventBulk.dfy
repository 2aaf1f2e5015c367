/**
 Bulk insertion: appending every new row, sorting the new tail of each list once and merging it,
 gives the same table as inserting the rows one by one.
 */
module EventBulk {
  import opened Prelude
  import opened SortedLists
  import opened EventIndex
  import opened EventInsert

  /** The positions `first..n` of the selected rows, ascending. */
  function NewPositions(ks: seq<RowKey>, room: Option<Bytes>, first: nat, n: nat): seq<nat>
    requires n <= |ks|
  {
    if n <= first then []
    else NewPositions(ks, room, first, n - 1) + if Selected(ks, room, n - 1) then [n - 1] else []
  }

  /** The time entries of the timeline rows of `room` at positions `first..n`, in position order. */
  function NewEntries(ks: seq<RowKey>, room: Bytes, first: nat, n: nat): seq<TimeEntry>
    requires n <= |ks|
  {
    if n <= first then []
    else
      NewEntries(ks, room, first, n - 1) +
      if ks[n - 1].room == room && TimeOf(ks[n - 1], n - 1).Some? then [TimeOf(ks[n - 1], n - 1).value] else []
  }

  /** The positions `first..n` of the rows that relate by `key`, ascending. */
  function NewChildren(ks: seq<RowKey>, key: RelationKey, first: nat, n: nat): seq<nat>
    requires n <= |ks|
  {
    if n <= first then []
    else NewChildren(ks, key, first, n - 1) + if ks[n - 1].relation == Some(key) then [n - 1] else []
  }

  lemma {:induction false} NewPositionsBelow(ks: seq<RowKey>, room: Option<Bytes>, first: nat, n: nat)
    requires n <= |ks|
    ensures forall p :: p in NewPositions(ks, room, first, n) ==> p < n
  {
    if n > first { NewPositionsBelow(ks, room, first, n - 1); }
  }

  lemma {:induction false} NewPositionsGrown(ks: seq<RowKey>, k: RowKey, room: Option<Bytes>, first: nat, n: nat)
    requires n <= |ks|
    ensures NewPositions(ks + [k], room, first, n) == NewPositions(ks, room, first, n)
  {
    if n > first { NewPositionsGrown(ks, k, room, first, n - 1); }
  }

  lemma {:induction false} NewEntriesGrown(ks: seq<RowKey>, k: RowKey, room: Bytes, first: nat, n: nat)
    requires n <= |ks|
    ensures NewEntries(ks + [k], room, first, n) == NewEntries(ks, room, first, n)
  {
    if n > first { NewEntriesGrown(ks, k, room, first, n - 1); }
  }

  lemma {:induction false} NewChildrenGrown(ks: seq<RowKey>, k: RowKey, key: RelationKey, first: nat, n: nat)
    requires n <= |ks|
    ensures NewChildren(ks + [k], key, first, n) == NewChildren(ks, key, first, n)
  {
    if n > first { NewChildrenGrown(ks, k, key, first, n - 1); }
  }

  lemma {:induction false} StableSortAgrees<T>(lt: (T, T) -> bool, lt': (T, T) -> bool, s: seq<T>)
    requires forall x, y :: x in s && y in s ==> lt(x, y) == lt'(x, y)
    ensures StableSort(lt, s) == StableSort(lt', s)
  {
    if s != [] {
      var n := |s| - 1;
      StableSortAgrees(lt, lt', s[..n]);
      var head := StableSort(lt, s[..n]);
      StableSortElements(lt, s[..n]);
      forall x, y | x in [s[n]] && y in head ensures lt(x, y) == lt'(x, y) {
        assert y in multiset(head);
        assert y in s[..n] && x == s[n];
      }
      MergeAgrees(lt, lt', StableSort(lt, s[..n]), [s[n]]);
    }
  }

  /** Sorting one more element in and merging is merging the batch and then placing the element. */
  lemma SortMergeStep<T(!new)>(lt: (T, T) -> bool, old_: seq<T>, tail: seq<T>, x: T)
    requires StrictWeakOrder(lt)
    ensures Merge(lt, Merge(lt, old_, StableSort(lt, tail)), [x]) == Merge(lt, old_, StableSort(lt, tail + [x]))
  {
    MergeAssociative(lt, old_, StableSort(lt, tail), [x]);
    assert (tail + [x])[..|tail|] == tail;
  }

  function StreamOf(t: Index, room: Option<Bytes>): seq<nat> {
    match room
    case None => t.streamOrder
    case Some(r) => Bucket(t.byRoomStream, r)
  }

  /** The stream list `held` after sorting the new tail and merging it, as the bulk path does. */
  function BulkStream(ks: seq<RowKey>, room: Option<Bytes>, first: nat, held: seq<nat>): seq<nat> {
    Merge<nat>(ByOrder(ks), held, StableSort<nat>(ByOrder(ks), NewPositions(ks, room, first, |ks|)))
  }

  function BulkTime(ks: seq<RowKey>, room: Bytes, first: nat, held: seq<TimeEntry>): seq<TimeEntry> {
    Merge(ByTime(), held, StableSort(ByTime(), NewEntries(ks, room, first, |ks|)))
  }

  lemma BulkStreamReordered(ks: seq<RowKey>, k: RowKey, room: Option<Bytes>, first: nat, held: seq<nat>)
    requires first <= |ks| && forall p :: p in held ==> p < |ks|
    ensures var lt := ByOrder(ks + [k]);
            BulkStream(ks, room, first, held) ==
            Merge<nat>(lt, held, StableSort<nat>(lt, NewPositions(ks, room, first, |ks|)))
  {
    var ks' := ks + [k];
    var lt, lt' := ByOrder(ks), ByOrder(ks');
    var tail := NewPositions(ks, room, first, |ks|);
    NewPositionsBelow(ks, room, first, |ks|);
    assert forall q :: q in tail || q in held ==> OrderAt(ks, q) == OrderAt(ks', q);
    StableSortAgrees<nat>(lt, lt', tail);
    StableSortElements<nat>(lt, tail);
    MergeAgrees<nat>(lt, lt', held, StableSort<nat>(lt, tail));
  }

  lemma BulkStreamGrown(ks: seq<RowKey>, k: RowKey, room: Option<Bytes>, first: nat, held: seq<nat>)
    requires first <= |ks| && forall p :: p in held ==> p < |ks|
    ensures BulkStream(ks + [k], room, first, held) ==
            if Selected(ks + [k], room, |ks|)
            then Merge<nat>(ByOrder(ks + [k]), BulkStream(ks, room, first, held), [|ks|])
            else BulkStream(ks, room, first, held)
  {
    var ks', p: nat := ks + [k], |ks|;
    var tail := NewPositions(ks, room, first, p);
    NewTail(ks, k, room, first);
    BulkStreamReordered(ks, k, room, first, held);
    if Selected(ks', room, p) {
      OrdersAreStrictWeak(ks');
      SortMergeStep<nat>(ByOrder(ks'), held, tail, p);
    }
  }

  lemma NewTail(ks: seq<RowKey>, k: RowKey, room: Option<Bytes>, first: nat)
    requires first <= |ks|
    ensures var p, ks': seq<RowKey> := |ks|, ks + [k];
            var tail := NewPositions(ks, room, first, p);
            NewPositions(ks', room, first, p + 1) == if Selected(ks', room, p) then tail + [p] else tail
  {
    NewPositionsGrown(ks, k, room, first, |ks|);
  }

  lemma BulkTimeGrown(ks: seq<RowKey>, k: RowKey, room: Bytes, first: nat, held: seq<TimeEntry>)
    requires first <= |ks|
    ensures BulkTime(ks + [k], room, first, held) ==
            if k.room == room && TimeOf(k, |ks|).Some?
            then Merge(ByTime(), BulkTime(ks, room, first, held), [TimeOf(k, |ks|).value])
            else BulkTime(ks, room, first, held)
  {
    var tail := NewEntries(ks, room, first, |ks|);
    NewEntriesGrown(ks, k, room, first, |ks|);
    OrdersAreStrictWeak(ks);
    assert NewEntries(ks + [k], room, first, |ks| + 1) ==
           if k.room == room && TimeOf(k, |ks|).Some? then tail + [TimeOf(k, |ks|).value] else tail;
    assert BulkTime(ks + [k], room, first, held) ==
           Merge(ByTime(), held, StableSort(ByTime(), NewEntries(ks + [k], room, first, |ks| + 1)));
    if TimeOf(k, |ks|).Some? { SortMergeStep(ByTime(), held, tail, TimeOf(k, |ks|).value); }
  }

  lemma {:induction false} InsertRowsKs(t: Index, batch: seq<RowKey>)
    ensures t.ks <= InsertRows(t, batch).ks
  {
    if batch != [] { InsertRowsKs(t, batch[..|batch| - 1]); }
  }

  /** The global order and every room's order: one bulk merge is the same as many insertions. */
  lemma {:induction false} BulkStreamIsInserts(t: Index, batch: seq<RowKey>, room: Option<Bytes>)
    requires Consistent(t)
    ensures StreamOf(InsertRows(t, batch), room) ==
            BulkStream(InsertRows(t, batch).ks, room, |t.ks|, StreamOf(t, room))
  {
    assert StreamList(t.ks, room, StreamOf(t, room));
    if batch == [] {
      assert NewPositions(t.ks, room, |t.ks|, |t.ks|) == [];
    } else {
      var n := |batch| - 1;
      BulkStreamIsInserts(t, batch[..n], room);
      InsertRowsKs(t, batch[..n]);
      var b := InsertRows(t, batch[..n]);
      if batch[n].id !in b.byId {
        BulkStreamGrown(b.ks, batch[n], room, |t.ks|, StreamOf(t, room));
      }
    }
  }

  lemma {:induction false} BulkTimeIsInserts(t: Index, batch: seq<RowKey>, room: Bytes)
    ensures Bucket(InsertRows(t, batch).byRoomTime, room) ==
            BulkTime(InsertRows(t, batch).ks, room, |t.ks|, Bucket(t.byRoomTime, room))
  {
    if batch == [] {
      assert NewEntries(t.ks, room, |t.ks|, |t.ks|) == [];
    } else {
      var n := |batch| - 1;
      BulkTimeIsInserts(t, batch[..n], room);
      InsertRowsKs(t, batch[..n]);
      var b := InsertRows(t, batch[..n]);
      if batch[n].id !in b.byId {
        BulkTimeGrown(b.ks, batch[n], room, |t.ks|, Bucket(t.byRoomTime, room));
      }
    }
  }

  lemma PlacedChildren(ks: seq<RowKey>, k: RowKey, m: map<Bytes, RelationLists>, key: RelationKey)
    ensures Children(PlaceChild(ks + [k], m, |ks|), key) ==
            Children(m, key) + if k.relation == Some(key) then [|ks|] else []
  {
    if k.relation.Some? {
      var own := k.relation.value;
      ChildrenAfterSet(m, own, Children(m, own) + [|ks|], key);
    }
  }

  /** The children `held` under `key` followed by the new ones, as the bulk path appends them. */
  function BulkChildren(ks: seq<RowKey>, key: RelationKey, first: nat, held: seq<nat>): seq<nat> {
    held + NewChildren(ks, key, first, |ks|)
  }

  lemma BulkChildrenGrown(ks: seq<RowKey>, k: RowKey, key: RelationKey, first: nat, held: seq<nat>)
    requires first <= |ks|
    ensures BulkChildren(ks + [k], key, first, held) ==
            BulkChildren(ks, key, first, held) + if k.relation == Some(key) then [|ks|] else []
  {
    NewChildrenGrown(ks, k, key, first, |ks|);
  }

  lemma {:induction false} BulkChildrenIsInserts(t: Index, batch: seq<RowKey>, key: RelationKey)
    ensures Children(InsertRows(t, batch).relationChildren, key) ==
            BulkChildren(InsertRows(t, batch).ks, key, |t.ks|, Children(t.relationChildren, key))
  {
    if batch == [] {
      assert NewChildren(t.ks, key, |t.ks|, |t.ks|) == [];
    } else {
      var n := |batch| - 1;
      BulkChildrenIsInserts(t, batch[..n], key);
      InsertRowsKs(t, batch[..n]);
      var b := InsertRows(t, batch[..n]);
      if batch[n].id !in b.byId {
        PlacedChildren(b.ks, batch[n], b.relationChildren, key);
        BulkChildrenGrown(b.ks, batch[n], key, |t.ks|, Children(t.relationChildren, key));
      }
    }
  }
}
