/**
 Removing marked rows: the survivors move down to close the gaps, every index is renumbered by the
 same map, and the result is the table built from the survivors alone.
 */
module EventErase {
  import opened Prelude
  import opened SortedLists
  import opened EventIndex
  import opened EventInsert

  /** The first `n` positions that are not marked, ascending: where each surviving row came from. */
  function KeptTo(removed: seq<bool>, n: nat): seq<nat>
    requires n <= |removed|
  {
    if n == 0 then []
    else if removed[n - 1] then KeptTo(removed, n - 1)
    else KeptTo(removed, n - 1) + [n - 1]
  }

  lemma {:induction false} KeptToExact(removed: seq<bool>, n: nat)
    requires n <= |removed|
    ensures forall p: nat :: p in KeptTo(removed, n) <==> p < n && !removed[p]
    ensures forall q :: 0 <= q < |KeptTo(removed, n)| ==> KeptTo(removed, n)[q] < n
    ensures Ascending(KeptTo(removed, n)) && |KeptTo(removed, n)| <= n
  {
    if n > 0 { KeptToExact(removed, n - 1); }
  }

  function Kept(removed: seq<bool>): (s: seq<nat>)
    ensures forall p: nat :: p in s <==> p < |removed| && !removed[p]
    ensures forall q :: 0 <= q < |s| ==> s[q] < |removed|
    ensures Ascending(s)
  {
    KeptToExact(removed, |removed|);
    KeptTo(removed, |removed|)
  }

  function RemapTo(removed: seq<bool>, n: nat): (r: seq<Option<nat>>)
    requires n <= |removed|
    ensures |r| == n
  {
    if n == 0 then []
    else RemapTo(removed, n - 1) + [if removed[n - 1] then None else Some(|KeptTo(removed, n - 1)|)]
  }

  /** Old position to new position; nothing for a removed row. */
  function Remap(removed: seq<bool>): (r: seq<Option<nat>>)
    ensures |r| == |removed|
  {
    RemapTo(removed, |removed|)
  }

  lemma {:induction false} RemapToKept(removed: seq<bool>, n: nat, p: nat)
    requires p < n <= |removed|
    ensures RemapTo(removed, n)[p].None? == removed[p]
    ensures !removed[p] ==>
            var q := RemapTo(removed, n)[p].value; q < |KeptTo(removed, n)| && KeptTo(removed, n)[q] == p
  {
    if p < n - 1 { RemapToKept(removed, n - 1, p); }
  }

  /** A surviving row's new position is where the survivors list it. */
  lemma RemapKept(removed: seq<bool>, p: nat)
    requires p < |removed|
    ensures Remap(removed)[p].None? == removed[p]
    ensures !removed[p] ==> var q := Remap(removed)[p].value; q < |Kept(removed)| && Kept(removed)[q] == p
  {
    RemapToKept(removed, |removed|, p);
  }

  function NewPosition(remap: seq<Option<nat>>, p: nat): Option<nat> {
    if p < |remap| then remap[p] else None
  }

  function Renumber(remap: seq<Option<nat>>): nat -> Option<nat> {
    (p: nat) => NewPosition(remap, p)
  }

  function RenumberEntry(remap: seq<Option<nat>>): TimeEntry -> Option<TimeEntry> {
    (e: TimeEntry) =>
      match NewPosition(remap, e.position)
      case None => None
      case Some(q) => Some(e.(position := q))
  }

  function KeptOf<T>(rows: seq<T>, removed: seq<bool>): (r: seq<T>)
    requires |removed| == |rows|
    ensures |r| == |Kept(removed)|
    ensures forall q :: 0 <= q < |r| ==> r[q] == rows[Kept(removed)[q]]
  {
    seq(|Kept(removed)|, q requires 0 <= q < |Kept(removed)| =>
      rows[Kept(removed)[q]])
  }

  function CompactIds(remap: seq<Option<nat>>, m: map<Bytes, nat>): map<Bytes, nat> {
    map id | id in m && NewPosition(remap, m[id]).Some? :: NewPosition(remap, m[id]).value
  }

  function CompactBuckets<T>(f: T -> Option<T>, m: map<Bytes, seq<T>>): map<Bytes, seq<T>> {
    map r | r in m && FilterMap(f, m[r]) != [] :: FilterMap(f, m[r])
  }

  function CompactLists(remap: seq<Option<nat>>, lists: RelationLists): RelationLists {
    RelationLists(FilterMap(Renumber(remap), lists.replace), FilterMap(Renumber(remap), lists.thread),
                  FilterMap(Renumber(remap), lists.reference))
  }

  function CompactChildren(remap: seq<Option<nat>>, m: map<Bytes, RelationLists>): map<Bytes, RelationLists> {
    map t | t in m && !CompactLists(remap, m[t]).AllEmpty() :: CompactLists(remap, m[t])
  }

  /** The greatest positive timestamp of every room that has one, from the rows alone. */
  function LatestMap(ks: seq<RowKey>): map<Bytes, int> {
    if ks == [] then map[] else RaiseLatest(LatestMap(ks[..|ks| - 1]), ks[|ks| - 1])
  }

  function EraseRows(t: Index, removed: seq<bool>): Index
    requires |removed| == |t.ks|
  {
    var remap := Remap(removed);
    var ks := KeptOf(t.ks, removed);
    Index(ks,
          CompactIds(remap, t.byId),
          FilterMap(Renumber(remap), t.streamOrder),
          CompactBuckets(Renumber(remap), t.byRoomStream),
          CompactBuckets(RenumberEntry(remap), t.byRoomTime),
          CompactChildren(remap, t.relationChildren),
          LatestMap(ks))
  }

  lemma {:induction false} LatestMapExact(ks: seq<RowKey>)
    ensures LatestExact(ks, LatestMap(ks))
  {
    if ks != [] {
      var n := |ks| - 1;
      LatestMapExact(ks[..n]);
      AddedLatest(ks[..n], ks[n], LatestMap(ks[..n]));
      assert ks == ks[..n] + [ks[n]];
    }
  }

  // ---------------------------------------------------------------- renumbering is monotone and onto

  lemma RenumberMonotone(removed: seq<bool>, p: nat, q: nat)
    requires NewPosition(Remap(removed), p).Some? && NewPosition(Remap(removed), q).Some?
    ensures p < q <==> NewPosition(Remap(removed), p).value < NewPosition(Remap(removed), q).value
  {
    var kept := Kept(removed);
    var i, j := NewPosition(Remap(removed), p).value, NewPosition(Remap(removed), q).value;
    RemapKept(removed, p);
    RemapKept(removed, q);
    assert kept[i] == p && kept[j] == q;
  }

  lemma RenumberOnto(removed: seq<bool>, q: nat)
    requires q < |Kept(removed)|
    ensures Kept(removed)[q] < |removed|
    ensures NewPosition(Remap(removed), Kept(removed)[q]) == Some(q)
  {
    var kept := Kept(removed);
    var p := kept[q];
    assert p in kept;
    RemapKept(removed, p);
    var i := NewPosition(Remap(removed), p).value;
    assert kept[i] == p;
  }

  lemma KeptRow(ks: seq<RowKey>, removed: seq<bool>, p: nat)
    requires |removed| == |ks| && NewPosition(Remap(removed), p).Some?
    ensures var q := NewPosition(Remap(removed), p).value;
            q < |KeptOf(ks, removed)| && KeptOf(ks, removed)[q] == ks[p]
  {
    RemapKept(removed, p);
  }

  lemma KeptOrder(ks: seq<RowKey>, removed: seq<bool>, p: nat)
    requires |removed| == |ks| && NewPosition(Remap(removed), p).Some?
    ensures OrderAt(KeptOf(ks, removed), NewPosition(Remap(removed), p).value) == OrderAt(ks, p)
  {
    KeptRow(ks, removed, p);
  }

  lemma StreamListErasedOrder(ks: seq<RowKey>, removed: seq<bool>, s: seq<nat>)
    requires |removed| == |ks| && NoDup(s) && Sorted(ByOrder(ks), s)
    ensures var r := FilterMap(Renumber(Remap(removed)), s); NoDup(r) && Sorted(ByOrder(KeptOf(ks, removed)), r)
    ensures TiesAsAdded(ks, s) ==> TiesAsAdded(KeptOf(ks, removed), FilterMap(Renumber(Remap(removed)), s))
  {
    var f, ks' := Renumber(Remap(removed)), KeptOf(ks, removed);
    forall p, q: nat | p in s && q in s && f(p).Some? && f(q).Some?
      ensures p < q <==> f(p).value < f(q).value
      ensures ByOrder(ks)(p, q) <==> ByOrder(ks')(f(p).value, f(q).value)
    {
      RenumberMonotone(removed, p, q);
      KeptOrder(ks, removed, p);
      KeptOrder(ks, removed, q);
    }
    FilterMapPairwise(f, (p: nat, q: nat) => p != q, (p: nat, q: nat) => p != q, s);
    FilterMapPairwise(f, (p: nat, q: nat) => !ByOrder(ks)(q, p), (p: nat, q: nat) => !ByOrder(ks')(q, p), s);
    if TiesAsAdded(ks, s) {
      FilterMapPairwise(f, (p: nat, q: nat) => !ByOrder(ks)(p, q) ==> p < q,
                        (p: nat, q: nat) => !ByOrder(ks')(p, q) ==> p < q, s);
    }
  }

  lemma StreamListErased(ks: seq<RowKey>, removed: seq<bool>, room: Option<Bytes>, s: seq<nat>)
    requires |removed| == |ks| && StreamList(ks, room, s)
    ensures StreamList(KeptOf(ks, removed), room, FilterMap(Renumber(Remap(removed)), s))
    ensures TiesAsAdded(ks, s) ==> TiesAsAdded(KeptOf(ks, removed), FilterMap(Renumber(Remap(removed)), s))
  {
    var f, ks' := Renumber(Remap(removed)), KeptOf(ks, removed);
    var r := FilterMap(f, s);
    StreamListErasedOrder(ks, removed, s);
    FilterMapElements(f, s);
    forall q: nat ensures q in r <==> Selected(ks', room, q) {
      if q in r {
        var i :| 0 <= i < |s| && f(s[i]) == Some(q);
        assert s[i] in s;
        KeptRow(ks, removed, s[i]);
      }
      if Selected(ks', room, q) {
        RenumberOnto(removed, q);
        var p := Kept(removed)[q];
        assert p in s;
        var i :| 0 <= i < |s| && s[i] == p;
      }
    }
  }

  lemma RenumberedEarlier(removed: seq<bool>, a: TimeEntry, b: TimeEntry)
    requires var f := RenumberEntry(Remap(removed)); f(a).Some? && f(b).Some?
    ensures var f := RenumberEntry(Remap(removed));
            (Earlier(a, b) <==> Earlier(f(a).value, f(b).value)) && (a != b ==> f(a).value != f(b).value)
  {
    RenumberMonotone(removed, a.position, b.position);
    RenumberMonotone(removed, b.position, a.position);
  }

  lemma TimeListErasedOrder(removed: seq<bool>, s: seq<TimeEntry>)
    requires NoDup(s) && Sorted(ByTime(), s)
    ensures var r := FilterMap(RenumberEntry(Remap(removed)), s); NoDup(r) && Sorted(ByTime(), r)
  {
    var f := RenumberEntry(Remap(removed));
    forall a, b | a in s && b in s && f(a).Some? && f(b).Some?
      ensures Earlier(b, a) <==> Earlier(f(b).value, f(a).value)
      ensures a != b ==> f(a).value != f(b).value
    {
      RenumberedEarlier(removed, a, b);
      RenumberedEarlier(removed, b, a);
    }
    FilterMapPairwise(f, (a: TimeEntry, b: TimeEntry) => a != b, (a: TimeEntry, b: TimeEntry) => a != b, s);
    FilterMapPairwise(f, (a: TimeEntry, b: TimeEntry) => !ByTime()(b, a), (a: TimeEntry, b: TimeEntry) => !ByTime()(b, a), s);
  }

  lemma TimeListErased(ks: seq<RowKey>, removed: seq<bool>, room: Bytes, s: seq<TimeEntry>)
    requires |removed| == |ks| && TimeList(ks, room, s)
    ensures TimeList(KeptOf(ks, removed), room, FilterMap(RenumberEntry(Remap(removed)), s))
  {
    var f, ks' := RenumberEntry(Remap(removed)), KeptOf(ks, removed);
    var r := FilterMap(f, s);
    TimeListErasedOrder(removed, s);
    FilterMapElements(f, s);
    forall e
      ensures e in r <==> Selected(ks', Some(room), e.position) && TimeOf(ks'[e.position], e.position) == Some(e)
    {
      if e in r {
        var i :| 0 <= i < |s| && f(s[i]) == Some(e);
        assert s[i] in s;
        KeptRow(ks, removed, s[i].position);
      }
      if Selected(ks', Some(room), e.position) && TimeOf(ks'[e.position], e.position) == Some(e) {
        RenumberOnto(removed, e.position);
        var a := e.(position := Kept(removed)[e.position]);
        assert a in s && f(a) == Some(e);
        var i :| 0 <= i < |s| && s[i] == a;
      }
    }
  }

  lemma ChildListErased(ks: seq<RowKey>, removed: seq<bool>, key: RelationKey, s: seq<nat>)
    requires |removed| == |ks| && ChildList(ks, key, s)
    ensures ChildList(KeptOf(ks, removed), key, FilterMap(Renumber(Remap(removed)), s))
    ensures Ascending(s) ==> Ascending(FilterMap(Renumber(Remap(removed)), s))
  {
    var f, ks' := Renumber(Remap(removed)), KeptOf(ks, removed);
    var r := FilterMap(f, s);
    forall p, q: nat | p in s && q in s && f(p).Some? && f(q).Some?
      ensures p < q <==> f(p).value < f(q).value
    {
      RenumberMonotone(removed, p, q);
    }
    FilterMapPairwise(f, (p: nat, q: nat) => p != q, (p: nat, q: nat) => p != q, s);
    if Ascending(s) {
      FilterMapPairwise(f, ByPosition(), ByPosition(), s);
      assert forall i, j :: 0 <= i < j < |r| ==> ByPosition()(r[i], r[j]);
    }
    FilterMapElements(f, s);
    forall q: nat ensures q in r <==> q < |ks'| && ks'[q].relation == Some(key) {
      if q in r {
        var i :| 0 <= i < |s| && f(s[i]) == Some(q);
        assert s[i] in s;
        KeptRow(ks, removed, s[i]);
      }
      if q < |ks'| && ks'[q].relation == Some(key) {
        RenumberOnto(removed, q);
        var p := Kept(removed)[q];
        assert p in s;
        var i :| 0 <= i < |s| && s[i] == p;
      }
    }
  }

  lemma IdsErased(ks: seq<RowKey>, removed: seq<bool>, m: map<Bytes, nat>)
    requires |removed| == |ks| && IdsExact(ks, m)
    ensures IdsExact(KeptOf(ks, removed), CompactIds(Remap(removed), m))
  {
    var ks', m' := KeptOf(ks, removed), CompactIds(Remap(removed), m);
    forall q: nat | q < |ks'| ensures ks'[q].id in m' && m'[ks'[q].id] == q {
      RenumberOnto(removed, q);
    }
    forall id | id in m' ensures m'[id] < |ks'| && ks'[m'[id]].id == id {
      KeptRow(ks, removed, m[id]);
    }
  }

  lemma CompactBucket<T>(f: T -> Option<T>, m: map<Bytes, seq<T>>, r: Bytes)
    ensures Bucket(CompactBuckets(f, m), r) == FilterMap(f, Bucket(m, r))
    ensures NoEmptyBucket(CompactBuckets(f, m))
  {
  }

  lemma CompactChild(remap: seq<Option<nat>>, m: map<Bytes, RelationLists>, key: RelationKey)
    ensures Children(CompactChildren(remap, m), key) == FilterMap(Renumber(remap), Children(m, key))
  {
  }

  /** Removing rows keeps every index exact, and in the order added if it was. */
  lemma EraseRowsKeeps(t: Index, removed: seq<bool>)
    requires |removed| == |t.ks| && Consistent(t)
    ensures Consistent(EraseRows(t, removed))
    ensures AsAdded(t) ==> AsAdded(EraseRows(t, removed))
  {
    var t', remap := EraseRows(t, removed), Remap(removed);
    IdsErased(t.ks, removed, t.byId);
    StreamListErased(t.ks, removed, None, t.streamOrder);
    forall r
      ensures StreamList(t'.ks, Some(r), Bucket(t'.byRoomStream, r))
      ensures TiesAsAdded(t.ks, Bucket(t.byRoomStream, r)) ==> TiesAsAdded(t'.ks, Bucket(t'.byRoomStream, r))
      ensures TimeList(t'.ks, r, Bucket(t'.byRoomTime, r))
    {
      assert StreamList(t.ks, Some(r), Bucket(t.byRoomStream, r));
      assert TimeList(t.ks, r, Bucket(t.byRoomTime, r));
      CompactBucket(Renumber(remap), t.byRoomStream, r);
      CompactBucket(RenumberEntry(remap), t.byRoomTime, r);
      StreamListErased(t.ks, removed, Some(r), Bucket(t.byRoomStream, r));
      TimeListErased(t.ks, removed, r, Bucket(t.byRoomTime, r));
    }
    forall key
      ensures ChildList(t'.ks, key, Children(t'.relationChildren, key))
      ensures Ascending(Children(t.relationChildren, key)) ==> Ascending(Children(t'.relationChildren, key))
    {
      assert ChildList(t.ks, key, Children(t.relationChildren, key));
      CompactChild(remap, t.relationChildren, key);
      ChildListErased(t.ks, removed, key, Children(t.relationChildren, key));
    }
    LatestMapExact(t'.ks);
  }

  function Ids(batch: seq<RowKey>): set<Bytes> {
    set i | 0 <= i < |batch| :: batch[i].id
  }

  lemma InsertNew(t: Index, k: RowKey)
    requires k.id !in t.byId
    ensures InsertRow(t, k).ks == t.ks + [k] && InsertRow(t, k).byId.Keys == t.byId.Keys + {k.id}
  {
  }

  lemma InsertLast(t: Index, batch: seq<RowKey>, k: RowKey)
    ensures InsertRows(t, batch + [k]) == InsertRow(InsertRows(t, batch), k)
  {
    assert (batch + [k])[..|batch|] == batch;
  }

  lemma IdsAppend(batch: seq<RowKey>, k: RowKey)
    ensures Ids(batch + [k]) == Ids(batch) + {k.id}
  {
    assert forall i :: 0 <= i < |batch| ==> (batch + [k])[i] == batch[i];
    assert (batch + [k])[|batch|] == k;
  }

  /** The ids of the batch are new and differ from each other. */
  ghost predicate AllNew(known: set<Bytes>, batch: seq<RowKey>) {
    && (forall i, j :: 0 <= i < j < |batch| ==> batch[i].id != batch[j].id)
    && (forall i :: 0 <= i < |batch| ==> batch[i].id !in known)
  }

  lemma AllNewSplit(known: set<Bytes>, before: seq<RowKey>, k: RowKey)
    requires AllNew(known, before + [k])
    ensures AllNew(known, before) && k.id !in known + Ids(before)
  {
    var batch := before + [k];
    assert forall i :: 0 <= i < |before| ==> batch[i] == before[i];
    assert batch[|before|] == k;
  }

  ghost predicate RowsAppended(t: Index, batch: seq<RowKey>, b: Index) {
    b.ks == t.ks + batch && b.byId.Keys == t.byId.Keys + Ids(batch)
  }

  lemma RowsAppendedStep(t: Index, batch: seq<RowKey>, b: Index, k: RowKey)
    requires RowsAppended(t, batch, b) && k.id !in t.byId.Keys + Ids(batch)
    ensures RowsAppended(t, batch + [k], InsertRow(b, k))
  {
    InsertNew(b, k);
    IdsAppend(batch, k);
    assert t.ks + batch + [k] == t.ks + (batch + [k]);
  }

  /** Rows with ids new to the table and to each other are all appended. */
  lemma {:induction false} InsertDistinct(t: Index, batch: seq<RowKey>)
    requires AllNew(t.byId.Keys, batch)
    ensures RowsAppended(t, batch, InsertRows(t, batch))
  {
    if batch != [] {
      var before, k := batch[..|batch| - 1], batch[|batch| - 1];
      assert batch == before + [k];
      AllNewSplit(t.byId.Keys, before, k);
      InsertDistinct(t, before);
      RowsAppendedStep(t, before, InsertRows(t, before), k);
      InsertLast(t, before, k);
    }
  }

  // ---------------------------------------------------------------- when the table is the one rebuilt from its rows

  lemma DistinctIds(t: Index)
    requires Consistent(t)
    ensures forall i, j :: 0 <= i < j < |t.ks| ==> t.ks[i].id != t.ks[j].id
  {
    forall i, j | 0 <= i < j < |t.ks| ensures t.ks[i].id != t.ks[j].id {
      assert t.byId[t.ks[i].id] == i && t.byId[t.ks[j].id] == j;
    }
  }

  lemma RebuildKeeps(ks: seq<RowKey>)
    requires forall i, j :: 0 <= i < j < |ks| ==> ks[i].id != ks[j].id
    ensures var b := InsertRows(EMPTY, ks); b.ks == ks && Consistent(b) && AsAdded(b)
  {
    EmptyKeeps();
    InsertDistinct(EMPTY, ks);
    InsertRowsKeeps(EMPTY, ks);
    assert EMPTY.ks + ks == ks;
  }

  /** An exact table is the one that inserting its rows into an empty one builds exactly when it is in the order added. */
  lemma RebuiltIffAsAdded(t: Index)
    requires Consistent(t)
    ensures t == InsertRows(EMPTY, t.ks) <==> AsAdded(t)
  {
    DistinctIds(t);
    RebuildKeeps(t.ks);
    if AsAdded(t) {
      IndexDetermined(t, InsertRows(EMPTY, t.ks));
    }
  }

  predicate Survives(removed: seq<bool>, p: nat) {
    p < |removed| && !removed[p]
  }

  /** The surviving rows of a list that tie are listed in the order they were added. */
  ghost predicate SurvivorTies(ks: seq<RowKey>, removed: seq<bool>, s: seq<nat>) {
    forall i, j :: 0 <= i < j < |s| && Survives(removed, s[i]) && Survives(removed, s[j]) && !ByOrder(ks)(s[i], s[j])
                   ==> s[i] < s[j]
  }

  ghost predicate SurvivorsAscend(removed: seq<bool>, s: seq<nat>) {
    forall i, j :: 0 <= i < j < |s| && Survives(removed, s[i]) && Survives(removed, s[j]) ==> s[i] < s[j]
  }

  /** The rows to be kept are already in the order added, whatever is wrong with those to be removed. */
  ghost predicate SurvivorsAsAdded(t: Index, removed: seq<bool>) {
    && (forall r :: SurvivorTies(t.ks, removed, Bucket(t.byRoomStream, r)))
    && (forall key :: SurvivorsAscend(removed, Children(t.relationChildren, key)))
  }

  lemma RenumberedSurvives(removed: seq<bool>, p: nat)
    ensures Renumber(Remap(removed))(p).Some? <==> Survives(removed, p)
  {
    if p < |removed| {
      RemapKept(removed, p);
    }
  }

  function TiedInOrder(ks: seq<RowKey>): (nat, nat) -> bool {
    (p: nat, q: nat) => !ByOrder(ks)(p, q) ==> p < q
  }

  lemma TieRenumbered(ks: seq<RowKey>, removed: seq<bool>, p: nat, q: nat)
    requires |removed| == |ks| && NewPosition(Remap(removed), p).Some? && NewPosition(Remap(removed), q).Some?
    ensures var p', q' := NewPosition(Remap(removed), p).value, NewPosition(Remap(removed), q).value;
            TiedInOrder(KeptOf(ks, removed))(p', q') <==> (!ByOrder(ks)(p, q) ==> p < q)
  {
    var p', q' := NewPosition(Remap(removed), p).value, NewPosition(Remap(removed), q).value;
    RenumberMonotone(removed, p, q);
    KeptOrder(ks, removed, p);
    KeptOrder(ks, removed, q);
    assert ByOrder(KeptOf(ks, removed))(p', q') <==> ByOrder(ks)(p, q);
  }

  /** Removal leaves a list's ties in order exactly when the survivors' ties were. */
  lemma ErasedTies(ks: seq<RowKey>, removed: seq<bool>, s: seq<nat>)
    requires |removed| == |ks|
    ensures TiesAsAdded(KeptOf(ks, removed), FilterMap(Renumber(Remap(removed)), s)) <==> SurvivorTies(ks, removed, s)
  {
    var f, ks' := Renumber(Remap(removed)), KeptOf(ks, removed);
    var rel, r := TiedInOrder(ks'), FilterMap(f, s);
    FilterMapPairs(f, rel, s);
    TiesArePairs(ks', r);
    forall i, j | 0 <= i < j < |s|
      ensures f(s[i]).Some? && f(s[j]).Some? <==> Survives(removed, s[i]) && Survives(removed, s[j])
      ensures f(s[i]).Some? && f(s[j]).Some? ==>
              (rel(f(s[i]).value, f(s[j]).value) <==> (!ByOrder(ks)(s[i], s[j]) ==> s[i] < s[j]))
    {
      RenumberedSurvives(removed, s[i]);
      RenumberedSurvives(removed, s[j]);
      if f(s[i]).Some? && f(s[j]).Some? {
        TieRenumbered(ks, removed, s[i], s[j]);
      }
    }
  }

  lemma TiesArePairs(ks: seq<RowKey>, r: seq<nat>)
    ensures TiesAsAdded(ks, r) <==> Pairwise(TiedInOrder(ks), r)
  {
    var rel, lt, tie := TiedInOrder(ks), ByOrder(ks), ByPosition();
    assert forall p: nat, q: nat :: rel(p, q) <==> (!lt(p, q) ==> tie(p, q));
  }

  lemma ErasedAscends(removed: seq<bool>, s: seq<nat>)
    ensures Ascending(FilterMap(Renumber(Remap(removed)), s)) <==> SurvivorsAscend(removed, s)
  {
    var f := Renumber(Remap(removed));
    forall p: nat ensures f(p).Some? <==> Survives(removed, p) {
      RenumberedSurvives(removed, p);
    }
    forall p: nat, q: nat | f(p).Some? && f(q).Some?
      ensures ByPosition()(f(p).value, f(q).value) <==> p < q
    {
      RenumberMonotone(removed, p, q);
    }
    FilterMapPairs(f, ByPosition(), s);
    var r := FilterMap(f, s);
    assert Pairwise(ByPosition(), r) <==> Ascending(r);
    assert KeptPairwise(f, ByPosition(), s) <==> SurvivorsAscend(removed, s);
  }

  lemma ErasedAsAdded(t: Index, removed: seq<bool>)
    requires |removed| == |t.ks|
    ensures AsAdded(EraseRows(t, removed)) <==> SurvivorsAsAdded(t, removed)
  {
    var t', remap := EraseRows(t, removed), Remap(removed);
    forall r
      ensures TiesAsAdded(t'.ks, Bucket(t'.byRoomStream, r)) <==> SurvivorTies(t.ks, removed, Bucket(t.byRoomStream, r))
    {
      CompactBucket(Renumber(remap), t.byRoomStream, r);
      ErasedTies(t.ks, removed, Bucket(t.byRoomStream, r));
    }
    forall key
      ensures Ascending(Children(t'.relationChildren, key)) <==> SurvivorsAscend(removed, Children(t.relationChildren, key))
    {
      CompactChild(remap, t.relationChildren, key);
      ErasedAscends(removed, Children(t.relationChildren, key));
    }
  }

  /**
   Removing rows leaves the table that inserting the surviving rows, in order, into an empty one builds
   exactly when the survivors were in the order added, as they are whenever the whole table was.
   */
  lemma EraseIsRebuild(t: Index, removed: seq<bool>)
    requires |removed| == |t.ks| && Consistent(t)
    ensures EraseRows(t, removed) == InsertRows(EMPTY, KeptOf(t.ks, removed)) <==> SurvivorsAsAdded(t, removed)
    ensures AsAdded(t) ==> SurvivorsAsAdded(t, removed)
  {
    EraseRowsKeeps(t, removed);
    RebuiltIffAsAdded(EraseRows(t, removed));
    ErasedAsAdded(t, removed);
  }
}
