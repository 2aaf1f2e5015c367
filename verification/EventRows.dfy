/** The rows of the event table and what the indexes read of each: its time entry and its relation. */
module EventRows {
  import opened Prelude
  import opened EventIndex
  import opened CanonicalJson
  import opened Substrings
  import TopLevelInteger

  datatype Event = Event(
    eventId: Bytes,
    roomId: Bytes,
    sender: Bytes,
    json: Bytes,
    depth: uint64,
    streamOrdering: uint64,
    prevEventIds: seq<Bytes>,
    authEventIds: seq<Bytes>,
    signatures: seq<Bytes>,
    status: string)

  const ORIGIN_SERVER_TS: Bytes :=
    [111, 114, 105, 103, 105, 110, 95, 115, 101, 114, 118, 101, 114, 95, 116, 115]           // origin_server_ts
  const CONTENT: Bytes := [99, 111, 110, 116, 101, 110, 116]                                 // content
  const M_RELATES_TO: Bytes := [109, 46, 114, 101, 108, 97, 116, 101, 115, 95, 116, 111]     // m.relates_to
  const EVENT_ID: Bytes := [101, 118, 101, 110, 116, 95, 105, 100]                           // event_id
  const REL_TYPE: Bytes := [114, 101, 108, 95, 116, 121, 112, 101]                           // rel_type
  const M_REPLACE: Bytes := [109, 46, 114, 101, 112, 108, 97, 99, 101]                       // m.replace
  const M_THREAD: Bytes := [109, 46, 116, 104, 114, 101, 97, 100]                            // m.thread
  const M_REFERENCE: Bytes := [109, 46, 114, 101, 102, 101, 114, 101, 110, 99, 101]          // m.reference
  const MAX_ID_LENGTH := 255

  /** The value under the first member named `key`. */
  function MemberNamed(members: seq<Member>, key: Bytes): Option<Json> {
    if members == [] then None
    else if members[0].key == key then Some(members[0].value)
    else MemberNamed(members[1..], key)
  }

  function ObjectMember(v: Option<Json>, key: Bytes): Option<Json> {
    if v.Some? && v.value.Obj? then
      var m := MemberNamed(v.value.members, key);
      if m.Some? && m.value.Obj? then m else None
    else None
  }

  function StringMember(v: Option<Json>, key: Bytes): Option<Bytes> {
    if v.Some? && v.value.Obj? then
      var m := MemberNamed(v.value.members, key);
      if m.Some? && m.value.Str? then Some(m.value.s) else None
    else None
  }

  function KindOf(relType: Bytes): Option<RelationKind> {
    if relType == M_REPLACE then Some(Replace)
    else if relType == M_THREAD then Some(Thread)
    else if relType == M_REFERENCE then Some(Reference)
    else None
  }

  /** The relation a parsed event declares: a usable target and a kind the server aggregates. */
  function DeclaredRelation(event: Option<Json>): Option<RelationKey> {
    var relates := ObjectMember(ObjectMember(event, CONTENT), M_RELATES_TO);
    var target := StringMember(relates, EVENT_ID);
    var relType := StringMember(relates, REL_TYPE);
    if target.None? || relType.None? || target.value == [] || |target.value| > MAX_ID_LENGTH then None
    else
      match KindOf(relType.value)
      case None => None
      case Some(kind) => Some(RelationKey(target.value, kind))
  }

  /** The relation of a stored event: nothing is parsed unless the member's quoted name occurs in the text. */
  function RelationOf(parse: Bytes -> Option<Json>, json: Bytes): Option<RelationKey> {
    if Occurs(Quote(M_RELATES_TO), json) then DeclaredRelation(parse(json)) else None
  }

  predicate Timeline(status: string) {
    status != "outlier" && status != "rejected" && status != "soft_failed"
  }

  function KeyOf(parse: Bytes -> Option<Json>, e: Event): RowKey {
    RowKey(e.eventId, e.roomId, e.streamOrdering, e.depth,
           TopLevelInteger.Scan(e.json, ORIGIN_SERVER_TS, 0), Timeline(e.status), RelationOf(parse, e.json))
  }

  /** What the indexes read of every row, given the parser. */
  function RowKeys(parse: Bytes -> Option<Json>): Event -> RowKey {
    (e: Event) => KeyOf(parse, e)
  }

  /** The integer `origin_server_ts` of a stored event. */
  function OriginTs(e: Event): Option<int64> {
    TopLevelInteger.Scan(e.json, Ascii("origin_server_ts"), 0)
  }

  /** A row key carries the row's own ID, room and stream ordering. */
  ghost predicate Faithful(keyOf: Event -> RowKey) {
    forall e: Event ::
      keyOf(e).id == e.eventId && keyOf(e).room == e.roomId && keyOf(e).order == e.streamOrdering
  }

  lemma RowKeysFaithful(parse: Bytes -> Option<Json>)
    ensures Faithful(RowKeys(parse)) && ReadsRows(RowKeys(parse), parse)
  {
  }

  ghost predicate ReadsRow(keyOf: Event -> RowKey, parse: Bytes -> Option<Json>, e: Event) {
    keyOf(e) == KeyOf(parse, e)
  }

  /** The key of every row is what the indexes read of it, given the parser. */
  ghost predicate ReadsRows(keyOf: Event -> RowKey, parse: Bytes -> Option<Json>) {
    forall e: Event :: ReadsRow(keyOf, parse, e)
  }

  /** What the time index reads of a row, in the row's own terms. */
  lemma RowTime(parse: Bytes -> Option<Json>, e: Event)
    ensures KeyOf(parse, e).room == e.roomId && KeyOf(parse, e).order == e.streamOrdering
    ensures KeyOf(parse, e).depth == e.depth && KeyOf(parse, e).ts == OriginTs(e)
    ensures KeyOf(parse, e).timeline <==> e.status != "outlier" && e.status != "rejected" && e.status != "soft_failed"
  {
    assert ORIGIN_SERVER_TS == Ascii("origin_server_ts");
  }
}
