/** The table itself: a list of counters and an index from key to list node, both changed by every call. */
module FailureWindowTable {
  import opened FailureWindow

  /** A list node. The index holds node identities, which survive splicing and the removal of other nodes. */
  datatype Node = Node(id: nat, row: Row)

  function Rows(order: seq<Node>): (rows: seq<Row>)
    ensures |rows| == |order|
    ensures forall i :: 0 <= i < |order| ==> rows[i] == order[i].row
  {
    seq(|order|, i requires 0 <= i < |order| => order[i].row)
  }

  ghost predicate NodeIndexed(node: Node, index: map<Key, nat>, next: nat) {
    node.row.key in index && index[node.row.key] == node.id && node.id < next
  }

  ghost predicate Holds(order: seq<Node>, key: Key, id: nat) {
    exists i :: 0 <= i < |order| && order[i].row.key == key && order[i].id == id
  }

  /** Every node is in the index under its own key, no key or node twice, and the index holds nothing else. */
  ghost predicate Indexed(order: seq<Node>, index: map<Key, nat>, next: nat) {
    && (forall i, j :: 0 <= i < j < |order| ==> order[i].row.key != order[j].row.key)
    && (forall i, j :: 0 <= i < j < |order| ==> order[i].id != order[j].id)
    && (forall i :: 0 <= i < |order| ==> NodeIndexed(order[i], index, next))
    && (forall k :: k in index ==> Holds(order, k, index[k]))
  }

  /** Where the node with this identity is in the list. */
  function Locate(order: seq<Node>, id: nat): (p: nat)
    ensures p <= |order|
    ensures p < |order| ==> order[p].id == id
    decreases |order|
  {
    if order == [] then 0
    else
      var n := |order| - 1;
      if order[n].id == id then n
      else
        var p := Locate(order[..n], id);
        if p < n then p else |order|
  }

  lemma {:induction false} LocateFinds(order: seq<Node>, index: map<Key, nat>, next: nat, i: nat)
    requires Indexed(order, index, next) && i < |order|
    ensures Locate(order, order[i].id) == i
  {
    LocateUnique(order, i);
  }

  lemma {:induction false} LocateUnique(order: seq<Node>, i: nat)
    requires i < |order| && forall j, k :: 0 <= j < k < |order| ==> order[j].id != order[k].id
    ensures Locate(order, order[i].id) == i
  {
    var n := |order| - 1;
    if i < n {
      LocateUnique(order[..n], i);
    }
  }

  /** The index finds a key exactly where the list holds it. */
  lemma FoundAtPosition(order: seq<Node>, index: map<Key, nat>, next: nat, key: Key)
    requires Indexed(order, index, next)
    ensures key in index <==> Position(Rows(order), key) < |order|
    ensures key in index ==> Locate(order, index[key]) == Position(Rows(order), key)
  {
    var p := Position(Rows(order), key);
    if key in index {
      assert Holds(order, key, index[key]);
      var i :| 0 <= i < |order| && order[i].row.key == key && order[i].id == index[key];
      assert Rows(order)[i].key == key;
      assert p == i;
      LocateFinds(order, index, next, i);
    } else {
      assert p < |order| ==> NodeIndexed(order[p], index, next);
    }
  }

  function Without(order: seq<Node>, p: nat): (rest: seq<Node>)
    requires p < |order|
    ensures |rest| == |order| - 1
    ensures Rows(rest) == Removed(Rows(order), p)
  {
    order[..p] + order[p + 1..]
  }

  lemma WithoutAt(order: seq<Node>, p: nat, i: nat)
    requires p < |order| && i < |order| - 1
    ensures Without(order, p)[i] == order[if i < p then i else i + 1]
  {
  }

  lemma WithoutHolds(order: seq<Node>, p: nat, key: Key, id: nat)
    requires p < |order| && Holds(order, key, id) && order[p].row.key != key
    ensures Holds(Without(order, p), key, id)
  {
    var i :| 0 <= i < |order| && order[i].row.key == key && order[i].id == id;
    WithoutAt(order, p, if i < p then i else i - 1);
  }

  lemma IndexedRemove(order: seq<Node>, index: map<Key, nat>, next: nat, p: nat)
    requires Indexed(order, index, next) && p < |order|
    ensures Indexed(Without(order, p), index - {order[p].row.key}, next)
  {
    var rest := Without(order, p);
    var index' := index - {order[p].row.key};
    forall i, j | 0 <= i < j < |rest| ensures rest[i].row.key != rest[j].row.key && rest[i].id != rest[j].id {
      WithoutAt(order, p, i);
      WithoutAt(order, p, j);
    }
    forall k | k in index' ensures Holds(rest, k, index'[k]) {
      WithoutHolds(order, p, k, index[k]);
    }
    forall i | 0 <= i < |rest| ensures NodeIndexed(rest[i], index', next) {
      WithoutAt(order, p, i);
      assert NodeIndexed(order[if i < p then i else i + 1], index, next);
    }
  }

  lemma AppendHolds(order: seq<Node>, node: Node, key: Key, id: nat)
    requires Holds(order, key, id) || (node.row.key == key && node.id == id)
    ensures Holds(order + [node], key, id)
  {
    var more := order + [node];
    if Holds(order, key, id) {
      var i :| 0 <= i < |order| && order[i].row.key == key && order[i].id == id;
      assert more[i] == order[i];
    } else {
      assert more[|order|] == node;
    }
  }

  lemma IndexedAppend(order: seq<Node>, index: map<Key, nat>, next: nat, node: Node, next': nat)
    requires Indexed(order, index, next) && node.row.key !in index && next <= next' && node.id < next'
    requires forall i :: 0 <= i < |order| ==> order[i].id != node.id
    ensures Indexed(order + [node], index[node.row.key := node.id], next')
    ensures Rows(order + [node]) == Rows(order) + [node.row]
  {
    var more := order + [node];
    var index' := index[node.row.key := node.id];
    forall i | 0 <= i < |more| ensures NodeIndexed(more[i], index', next') {
      assert i < |order| ==> NodeIndexed(order[i], index, next);
    }
    forall k | k in index' ensures Holds(more, k, index'[k]) {
      AppendHolds(order, node, k, index'[k]);
    }
    forall i, j | 0 <= i < j < |more| ensures more[i].row.key != more[j].row.key && more[i].id != more[j].id {
      assert NodeIndexed(order[i], index, next);
    }
  }

  /** A new node gets an identity no node has. */
  lemma IndexedOpen(order: seq<Node>, index: map<Key, nat>, next: nat, node: Node)
    requires Indexed(order, index, next) && node.row.key !in index && node.id == next
    ensures Indexed(order + [node], index[node.row.key := next], next + 1)
    ensures Rows(order + [node]) == Rows(order) + [node.row]
  {
    forall i | 0 <= i < |order| ensures order[i].id != node.id {
      assert NodeIndexed(order[i], index, next);
    }
    IndexedAppend(order, index, next, node, next + 1);
  }

  lemma IndexedTail(order: seq<Node>, index: map<Key, nat>, next: nat)
    requires Indexed(order, index, next) && order != []
    ensures Indexed(order[1..], index - {order[0].row.key}, next) && Rows(order[1..]) == Rows(order)[1..]
  {
    IndexedRemove(order, index, next, 0);
    assert Without(order, 0) == order[1..];
  }

  /** The order of nodes is right for an index whatever their counters hold. */
  lemma IndexedSameKeys(order: seq<Node>, order': seq<Node>, index: map<Key, nat>, next: nat)
    requires Indexed(order, index, next) && |order'| == |order|
    requires forall i :: 0 <= i < |order| ==> order'[i].id == order[i].id && order'[i].row.key == order[i].row.key
    ensures Indexed(order', index, next)
  {
    forall k | k in index ensures Holds(order', k, index[k]) {
      assert Holds(order, k, index[k]);
      var i :| 0 <= i < |order| && order[i].row.key == k && order[i].id == index[k];
      assert order'[i].row.key == k;
    }
    forall i | 0 <= i < |order'| ensures NodeIndexed(order'[i], index, next) {
      assert NodeIndexed(order[i], index, next);
    }
  }

  /** Changing a counter in place keeps the index. */
  lemma IndexedUpdate(order: seq<Node>, index: map<Key, nat>, next: nat, p: nat, row: Row)
    requires Indexed(order, index, next) && p < |order| && row.key == order[p].row.key
    ensures Indexed(order[p := order[p].(row := row)], index, next)
    ensures Rows(order[p := order[p].(row := row)]) == Rows(order)[p := row]
  {
    IndexedSameKeys(order, order[p := order[p].(row := row)], index, next);
  }

  /** Splicing a node to the back keeps the index as it was. */
  lemma IndexedSplice(order: seq<Node>, index: map<Key, nat>, next: nat, p: nat)
    requires Indexed(order, index, next) && p < |order|
    ensures Indexed(Without(order, p) + [order[p]], index, next)
  {
    var node := order[p];
    assert NodeIndexed(node, index, next);
    IndexedRemove(order, index, next, p);
    var rest := Without(order, p);
    forall i | 0 <= i < |rest| ensures rest[i].id != node.id {
      WithoutAt(order, p, i);
    }
    IndexedAppend(rest, index - {node.row.key}, next, node, next);
    assert (index - {node.row.key})[node.row.key := node.id] == index;
  }

  /** One more failure on the node at `p`; the failure that trips it restarts its window and moves it back. */
  method BumpNode(order: seq<Node>, ghost index: map<Key, nat>, ghost next: nat, p: nat, now: int, threshold: nat)
    returns (order': seq<Node>)
    requires Indexed(order, index, next) && p < |order|
    ensures Indexed(order', index, next) && Rows(order') == Bumped(Rows(order), p, now, threshold)
  {
    var row := order[p].row;
    if row.count == COUNT_LIMIT {
      return order;
    }
    var tripped := row.count + 1 == threshold;
    var row' := Row(row.key, row.count + 1, if tripped then now else row.start);
    IndexedUpdate(order, index, next, p, row');
    order' := order[p := order[p].(row := row')];
    if tripped {
      IndexedSplice(order', index, next, p);
      assert Removed(Rows(order'), p) == Removed(Rows(order), p);
      order' := Without(order', p) + [order'[p]];
    }
  }

  class FailureWindowTable {
    const capacity: nat
    var order: seq<Node>
    var index: map<Key, nat>
    var next: nat

    ghost predicate Valid()
      reads this
    {
      capacity >= 1 && Indexed(order, index, next)
    }

    function Contents(): seq<Row>
      reads this
    {
      Rows(order)
    }

    /** The table always has room for one counter. */
    constructor (requested: nat)
      ensures Valid() && Contents() == []
      ensures capacity == if requested == 0 then 1 else requested
    {
      capacity := if requested == 0 then 1 else requested;
      order, index, next := [], map[], 0;
    }

    method PopFront()
      requires Valid() && order != []
      modifies this
      ensures Valid() && Contents() == old(Contents())[1..] && index == old(index) - {old(order)[0].row.key}
    {
      IndexedTail(order, index, next);
      index := index - {order[0].row.key};
      order := order[1..];
    }

    method Expire(now: int, window: int)
      requires Valid()
      modifies this
      ensures Valid() && Contents() == Expired(old(Contents()), now, window)
    {
      while order != [] && Elapsed(order[0].row.start, now, window)
        invariant Valid()
        invariant Expired(Contents(), now, window) == Expired(old(Contents()), now, window)
        decreases |Contents()|
      {
        assert Contents()[0] == order[0].row;
        PopFront();
      }
      assert order != [] ==> Contents()[0] == order[0].row;
    }

    /** The counter of a key, as the index finds it. */
    method Lookup(key: Key) returns (found: Counter)
      requires Valid()
      ensures found == Lane(Contents(), key)
    {
      FoundAtPosition(order, index, next, key);
      if key !in index {
        return Idle;
      }
      var row := order[Locate(order, index[key])].row;
      return Counting(row.count, row.start);
    }

    /** Time left before the key may try again. */
    method LockoutRemaining(key: Key, now: int, s: Settings) returns (remaining: int)
      requires Valid()
      modifies this
      ensures Valid() && Contents() == Expired(old(Contents()), now, s.window)
      ensures remaining == Remaining(Lane(Contents(), key), now, s)
    {
      Expire(now, s.window);
      var found := Lookup(key);
      remaining := Remaining(found, now, s);
    }

    /** Failures counted for the key inside the window. */
    method Failures(key: Key, now: int, window: int) returns (count: nat)
      requires Valid()
      modifies this
      ensures Valid() && Contents() == Expired(old(Contents()), now, window)
      ensures count == Count(Lane(Contents(), key))
    {
      Expire(now, window);
      var found := Lookup(key);
      count := Count(found);
    }

    method PushBack(row: Row)
      requires Valid() && row.key !in index
      modifies this
      ensures Valid() && Contents() == old(Contents()) + [row]
    {
      var node := Node(next, row);
      IndexedOpen(order, index, next, node);
      order, index, next := order + [node], index[row.key := next], next + 1;
    }

    /** Adds a counter for a key the table does not hold, making room first. */
    method Open(key: Key, now: int)
      requires Valid() && key !in index
      modifies this
      ensures Valid() && Contents() == Opened(old(Contents()), key, now, capacity)
    {
      if |order| >= capacity {
        PopFront();
      }
      PushBack(Row(key, 1, now));
    }

    /** Counts a failure on the node the index points at. */
    method Bump(key: Key, now: int, threshold: nat)
      requires Valid() && key in index
      modifies this
      ensures Valid() && Position(old(Contents()), key) < |old(order)|
      ensures Contents() == Bumped(old(Contents()), Position(old(Contents()), key), now, threshold)
    {
      FoundAtPosition(order, index, next, key);
      var p := Locate(order, index[key]);
      order := BumpNode(order, index, next, p, now, threshold);
    }

    /** Counts one failure for the key. */
    method RecordFailure(key: Key, now: int, s: Settings)
      requires Valid() && s.capacity == capacity
      modifies this
      ensures Valid() && Contents() == Recorded(old(Contents()), key, now, s)
    {
      Expire(now, s.window);
      FoundAtPosition(order, index, next, key);
      if key !in index {
        Open(key, now);
      } else {
        Bump(key, now, s.threshold);
      }
    }

    /** Forgets the key. */
    method Clear(key: Key)
      requires Valid()
      modifies this
      ensures Valid() && Contents() == Cleared(old(Contents()), key)
    {
      FoundAtPosition(order, index, next, key);
      if key !in index {
        return;
      }
      var p := Locate(order, index[key]);
      IndexedRemove(order, index, next, p);
      order := Without(order, p);
      index := index - {key};
    }
  }
}
