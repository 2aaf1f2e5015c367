/**
 What the indexes of the event table mean, on values: the part of each stored row the indexes
 depend on, the exact contents every index must have, and each operation as one step on them.
 The class in EventTable.dfy is proved to take exactly these steps.
 */
module EventIndex {
  import opened Prelude
  import opened SortedLists

  datatype RelationKind = Replace | Thread | Reference

  datatype RelationKey = RelationKey(target: Bytes, kind: RelationKind)

  /** What the indexes read of one row: `ts` is the integer `origin_server_ts` of its JSON. */
  datatype RowKey = RowKey(id: Bytes, room: Bytes, order: uint64, depth: uint64,
                           ts: Option<int64>, timeline: bool, relation: Option<RelationKey>)

  datatype TimeEntry = TimeEntry(ts: int64, depth: uint64, order: uint64, position: nat)

  /** The children of one event: one list of positions per kind of relation. */
  datatype RelationLists = RelationLists(replace: seq<nat>, thread: seq<nat>, reference: seq<nat>) {
    function Of(kind: RelationKind): seq<nat> {
      match kind
      case Replace => replace
      case Thread => thread
      case Reference => reference
    }

    function With(kind: RelationKind, list: seq<nat>): RelationLists {
      match kind
      case Replace => this.(replace := list)
      case Thread => this.(thread := list)
      case Reference => this.(reference := list)
    }

    predicate AllEmpty() {
      replace == [] && thread == [] && reference == []
    }
  }

  const NO_CHILDREN := RelationLists([], [], [])

  datatype Index = Index(
    ks: seq<RowKey>,
    byId: map<Bytes, nat>,
    streamOrder: seq<nat>,
    byRoomStream: map<Bytes, seq<nat>>,
    byRoomTime: map<Bytes, seq<TimeEntry>>,
    relationChildren: map<Bytes, RelationLists>,
    roomLatestTs: map<Bytes, int>)

  const EMPTY := Index([], map[], [], map[], map[], map[], map[])

  // ---------------------------------------------------------------- orders

  function OrderAt(ks: seq<RowKey>, p: nat): int {
    if p < |ks| then ks[p].order else 0
  }

  /** Positions by the stream ordering of their rows; equal stream orderings tie. */
  function ByOrder(ks: seq<RowKey>): (nat, nat) -> bool {
    (p: nat, q: nat) => OrderAt(ks, p) < OrderAt(ks, q)
  }

  function ByPosition(): (nat, nat) -> bool {
    (p: nat, q: nat) => p < q
  }

  /** Positions by (stream ordering, position). */
  function ByOrderThenPosition(ks: seq<RowKey>): (nat, nat) -> bool {
    (p: nat, q: nat) => OrderAt(ks, p) < OrderAt(ks, q) || (OrderAt(ks, p) == OrderAt(ks, q) && p < q)
  }

  predicate Earlier(a: TimeEntry, b: TimeEntry) {
    a.ts < b.ts || (a.ts == b.ts && (a.depth < b.depth || (a.depth == b.depth &&
      (a.order < b.order || (a.order == b.order && a.position < b.position)))))
  }

  function ByTime(): (TimeEntry, TimeEntry) -> bool {
    (a: TimeEntry, b: TimeEntry) => Earlier(a, b)
  }

  lemma OrdersAreStrictWeak(ks: seq<RowKey>)
    ensures StrictWeakOrder(ByOrder(ks)) && StrictWeakOrder(ByTime())
    ensures StrictWeakOrder(ByOrderThenPosition(ks)) && StrictWeakOrder(ByPosition())
  {
  }

  // ---------------------------------------------------------------- buckets

  function Bucket<T>(m: map<Bytes, seq<T>>, r: Bytes): seq<T> {
    if r in m then m[r] else []
  }

  /** Stores a room's list; an empty list is no bucket at all. */
  function SetBucket<T>(m: map<Bytes, seq<T>>, r: Bytes, s: seq<T>): map<Bytes, seq<T>> {
    if s == [] then m - {r} else m[r := s]
  }

  ghost predicate NoEmptyBucket<T>(m: map<Bytes, seq<T>>) {
    forall r :: r in m ==> m[r] != []
  }

  function Children(m: map<Bytes, RelationLists>, key: RelationKey): seq<nat> {
    if key.target in m then m[key.target].Of(key.kind) else []
  }

  function SetChildren(m: map<Bytes, RelationLists>, key: RelationKey, s: seq<nat>): map<Bytes, RelationLists> {
    var lists := (if key.target in m then m[key.target] else NO_CHILDREN).With(key.kind, s);
    if lists.AllEmpty() then m - {key.target} else m[key.target := lists]
  }

  ghost predicate NoEmptyTarget(m: map<Bytes, RelationLists>) {
    forall t :: t in m ==> !m[t].AllEmpty()
  }

  function LatestIn(m: map<Bytes, int>, r: Bytes): int {
    if r in m then m[r] else 0
  }

  lemma ChildrenAfterSet(m: map<Bytes, RelationLists>, key: RelationKey, s: seq<nat>, key': RelationKey)
    ensures Children(SetChildren(m, key, s), key') == if key' == key then s else Children(m, key')
    ensures NoEmptyTarget(m) ==> NoEmptyTarget(SetChildren(m, key, s))
  {
  }

  lemma BucketsDetermine<T>(m: map<Bytes, seq<T>>, m': map<Bytes, seq<T>>)
    requires NoEmptyBucket(m) && NoEmptyBucket(m')
    requires forall r :: Bucket(m, r) == Bucket(m', r)
    ensures m == m'
  {
    forall r ensures r in m <==> r in m' {
      assert Bucket(m, r) == Bucket(m', r);
    }
    forall r | r in m ensures m[r] == m'[r] {
      assert Bucket(m, r) == Bucket(m', r);
    }
  }

  lemma ChildrenDetermine(m: map<Bytes, RelationLists>, m': map<Bytes, RelationLists>)
    requires NoEmptyTarget(m) && NoEmptyTarget(m')
    requires forall key :: Children(m, key) == Children(m', key)
    ensures m == m'
  {
    forall t: Bytes
      ensures t in m <==> t in m'
      ensures t in m && t in m' ==> m[t] == m'[t]
    {
      assert Children(m, RelationKey(t, Replace)) == Children(m', RelationKey(t, Replace));
      assert Children(m, RelationKey(t, Thread)) == Children(m', RelationKey(t, Thread));
      assert Children(m, RelationKey(t, Reference)) == Children(m', RelationKey(t, Reference));
    }
  }

  // ---------------------------------------------------------------- what each index must hold

  function TimeOf(k: RowKey, p: nat): Option<TimeEntry> {
    if k.timeline && k.ts.Some? then Some(TimeEntry(k.ts.value, k.depth, k.order, p)) else None
  }

  function LatestTs(k: RowKey): int {
    if k.ts.Some? && k.ts.value > 0 then k.ts.value else 0
  }

  /** The rows of one room, or of every room. */
  predicate Selected(ks: seq<RowKey>, room: Option<Bytes>, p: nat) {
    p < |ks| && (room.Some? ==> ks[p].room == room.value)
  }

  ghost predicate IdsExact(ks: seq<RowKey>, byId: map<Bytes, nat>) {
    && (forall p: nat :: p < |ks| ==> ks[p].id in byId && byId[ks[p].id] == p)
    && (forall id :: id in byId ==> byId[id] < |ks| && ks[byId[id]].id == id)
  }

  /** `s` lists the selected rows, each once, by ascending stream ordering. */
  ghost predicate StreamList(ks: seq<RowKey>, room: Option<Bytes>, s: seq<nat>) {
    && NoDup(s)
    && Sorted(ByOrder(ks), s)
    && (forall p: nat :: p in s <==> Selected(ks, room, p))
  }

  /** Rows with equal stream ordering are listed in the order they were added. */
  ghost predicate TiesAsAdded(ks: seq<RowKey>, s: seq<nat>) {
    TiesOrdered(ByOrder(ks), ByPosition(), s)
  }

  ghost predicate TimeList(ks: seq<RowKey>, room: Bytes, s: seq<TimeEntry>) {
    && NoDup(s)
    && Sorted(ByTime(), s)
    && (forall e :: e in s <==>
          Selected(ks, Some(room), e.position) && TimeOf(ks[e.position], e.position) == Some(e))
  }

  ghost predicate ChildList(ks: seq<RowKey>, key: RelationKey, s: seq<nat>) {
    && NoDup(s)
    && (forall p: nat :: p in s <==> p < |ks| && ks[p].relation == Some(key))
  }

  ghost predicate Ascending(s: seq<nat>) {
    forall i, j :: 0 <= i < j < |s| ==> s[i] < s[j]
  }

  /** `v` is the greatest positive timestamp of the room, or 0 when it has none. */
  ghost predicate IsLatest(ks: seq<RowKey>, room: Bytes, v: int) {
    && v >= 0
    && (forall p: nat :: Selected(ks, Some(room), p) ==> LatestTs(ks[p]) <= v)
    && (v > 0 ==> exists p: nat :: Selected(ks, Some(room), p) && LatestTs(ks[p]) == v)
  }

  ghost predicate RoomStreamsExact(ks: seq<RowKey>, m: map<Bytes, seq<nat>>) {
    NoEmptyBucket(m) && forall r :: StreamList(ks, Some(r), Bucket(m, r))
  }

  ghost predicate RoomTimesExact(ks: seq<RowKey>, m: map<Bytes, seq<TimeEntry>>) {
    NoEmptyBucket(m) && forall r :: TimeList(ks, r, Bucket(m, r))
  }

  ghost predicate ChildrenExact(ks: seq<RowKey>, m: map<Bytes, RelationLists>) {
    NoEmptyTarget(m) && forall key :: ChildList(ks, key, Children(m, key))
  }

  ghost predicate LatestExact(ks: seq<RowKey>, m: map<Bytes, int>) {
    (forall r :: r in m ==> m[r] > 0) && forall r :: IsLatest(ks, r, LatestIn(m, r))
  }

  /** Every index lists exactly the rows it must: what every operation keeps. */
  ghost predicate Consistent(t: Index) {
    && IdsExact(t.ks, t.byId)
    && StreamList(t.ks, None, t.streamOrder) && TiesAsAdded(t.ks, t.streamOrder)
    && RoomStreamsExact(t.ks, t.byRoomStream)
    && RoomTimesExact(t.ks, t.byRoomTime)
    && ChildrenExact(t.ks, t.relationChildren)
    && LatestExact(t.ks, t.roomLatestTs)
  }

  ghost predicate RoomsAsAdded(ks: seq<RowKey>, m: map<Bytes, seq<nat>>) {
    forall r :: TiesAsAdded(ks, Bucket(m, r))
  }

  ghost predicate ChildrenAsAdded(m: map<Bytes, RelationLists>) {
    forall key :: Ascending(Children(m, key))
  }

  /** Besides, the room lists and the relation lists are in the order the rows were added. */
  ghost predicate AsAdded(t: Index) {
    RoomsAsAdded(t.ks, t.byRoomStream) && ChildrenAsAdded(t.relationChildren)
  }

  // ---------------------------------------------------------------- the rows determine the indexes

  lemma StreamListDetermined(ks: seq<RowKey>, room: Option<Bytes>, s: seq<nat>, s': seq<nat>)
    requires StreamList(ks, room, s) && TiesAsAdded(ks, s)
    requires StreamList(ks, room, s') && TiesAsAdded(ks, s')
    ensures s == s'
  {
    assert forall x :: x in s <==> x in s';
    AscendingDetermined(ByOrderThenPosition(ks), s, s');
  }

  lemma TimeListDetermined(ks: seq<RowKey>, room: Bytes, s: seq<TimeEntry>, s': seq<TimeEntry>)
    requires TimeList(ks, room, s) && TimeList(ks, room, s')
    ensures s == s'
  {
    forall i, j | 0 <= i < j < |s| ensures ByTime()(s[i], s[j]) { assert s[i] != s[j]; }
    forall i, j | 0 <= i < j < |s'| ensures ByTime()(s'[i], s'[j]) { assert s'[i] != s'[j]; }
    assert forall x :: x in s <==> x in s';
    AscendingDetermined(ByTime(), s, s');
  }

  lemma ChildListDetermined(ks: seq<RowKey>, key: RelationKey, s: seq<nat>, s': seq<nat>)
    requires ChildList(ks, key, s) && Ascending(s) && ChildList(ks, key, s') && Ascending(s')
    ensures s == s'
  {
    assert forall x :: x in s <==> x in s';
    AscendingDetermined(ByPosition(), s, s');
  }

  lemma LatestDetermined(ks: seq<RowKey>, room: Bytes, v: int, v': int)
    requires IsLatest(ks, room, v) && IsLatest(ks, room, v')
    ensures v == v'
  {
  }

  lemma LatestMapDetermined(ks: seq<RowKey>, m: map<Bytes, int>, m': map<Bytes, int>)
    requires LatestExact(ks, m) && LatestExact(ks, m')
    ensures m == m'
  {
    forall r: Bytes
      ensures r in m <==> r in m'
      ensures r in m && r in m' ==> m[r] == m'[r]
    {
      LatestDetermined(ks, r, LatestIn(m, r), LatestIn(m', r));
    }
  }

  lemma IdsDetermined(ks: seq<RowKey>, m: map<Bytes, nat>, m': map<Bytes, nat>)
    requires IdsExact(ks, m) && IdsExact(ks, m')
    ensures m == m'
  {
    assert forall id :: id in m ==> id in m' && m[id] == m'[id];
    assert forall id :: id in m' ==> id in m;
  }

  /** The stored rows determine every index: two tables over the same rows are the same table. */
  lemma IndexDetermined(t: Index, t': Index)
    requires t.ks == t'.ks
    requires Consistent(t) && AsAdded(t) && Consistent(t') && AsAdded(t')
    ensures t == t'
  {
    IdsDetermined(t.ks, t.byId, t'.byId);
    StreamListDetermined(t.ks, None, t.streamOrder, t'.streamOrder);
    forall r ensures Bucket(t.byRoomStream, r) == Bucket(t'.byRoomStream, r) {
      StreamListDetermined(t.ks, Some(r), Bucket(t.byRoomStream, r), Bucket(t'.byRoomStream, r));
    }
    BucketsDetermine(t.byRoomStream, t'.byRoomStream);
    forall r ensures Bucket(t.byRoomTime, r) == Bucket(t'.byRoomTime, r) {
      TimeListDetermined(t.ks, r, Bucket(t.byRoomTime, r), Bucket(t'.byRoomTime, r));
    }
    BucketsDetermine(t.byRoomTime, t'.byRoomTime);
    forall key ensures Children(t.relationChildren, key) == Children(t'.relationChildren, key) {
      ChildListDetermined(t.ks, key, Children(t.relationChildren, key), Children(t'.relationChildren, key));
    }
    ChildrenDetermine(t.relationChildren, t'.relationChildren);
    LatestMapDetermined(t.ks, t.roomLatestTs, t'.roomLatestTs);
  }
}
