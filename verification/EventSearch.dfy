/**
 What the queries of the event table answer, said of the stored rows alone: their own fields, the literal
 statuses and member names, and no index. Nothing here is used to build or walk an index.
 */
module EventSearch {
  import opened Prelude
  import opened SortedLists
  import opened Substrings
  import opened CanonicalJson
  import opened EventIndex
  import opened EventRows
  import opened EventQueries
  import TopLevelInteger

  // ---------------------------------------------------------------- the nearest event to a timestamp

  /** A row of the room that is on its timeline and has an integer timestamp. */
  predicate Searchable(e: Event, room: Bytes) {
    && e.roomId == room && OriginTs(e).Some?
    && e.status != "outlier" && e.status != "rejected" && e.status != "soft_failed"
  }

  /** A searchable row on the asked side of `ts`, the boundary included. */
  predicate Asked(rows: seq<Event>, room: Bytes, ts: int, direction: TimeDirection, p: nat) {
    && p < |rows| && Searchable(rows[p], room)
    && (if direction.Forwards? then OriginTs(rows[p]).value >= ts else OriginTs(rows[p]).value <= ts)
  }

  /** By timestamp, then depth, then stream ordering, then position. */
  predicate Before(rows: seq<Event>, p: nat, q: nat)
    requires p < |rows| && q < |rows| && OriginTs(rows[p]).Some? && OriginTs(rows[q]).Some?
  {
    var a, b := rows[p], rows[q];
    var at, bt := OriginTs(a).value, OriginTs(b).value;
    || at < bt
    || (at == bt && a.depth < b.depth)
    || (at == bt && a.depth == b.depth && a.streamOrdering < b.streamOrdering)
    || (at == bt && a.depth == b.depth && a.streamOrdering == b.streamOrdering && p < q)
  }

  ghost function AskedRows(rows: seq<Event>, room: Bytes, ts: int, direction: TimeDirection): set<nat> {
    set p: nat | p < |rows| && Asked(rows, room, ts, direction, p)
  }

  /** The asked rows that are nearer to the timestamp than row `p`. */
  ghost function Closer(rows: seq<Event>, room: Bytes, ts: int, direction: TimeDirection, p: nat): set<nat>
    requires Asked(rows, room, ts, direction, p)
  {
    set q: nat | q < |rows| && Asked(rows, room, ts, direction, q)
                 && (if direction.Forwards? then Before(rows, q, p) else Before(rows, p, q))
  }

  /**
   The search answers the nearest asked row that `accepts` takes, provided fewer than `cap` are nearer; it
   answers none when it took none of the `cap` nearest, and is truncated when there were more.
   */
  ghost predicate Answer(rows: seq<Event>, room: Bytes, ts: int, direction: TimeDirection, accepts: Event -> bool, cap: nat,
                         r: NearestByTime)
  {
    && (r.event.Some? ==>
          && Asked(rows, room, ts, direction, r.event.value) && accepts(rows[r.event.value])
          && |Closer(rows, room, ts, direction, r.event.value)| < cap
          && forall q :: q in Closer(rows, room, ts, direction, r.event.value) ==> !accepts(rows[q]))
    && (r.event.None? ==>
          forall p: nat :: Asked(rows, room, ts, direction, p) && |Closer(rows, room, ts, direction, p)| < cap ==>
            !accepts(rows[p]))
    && (r.truncated <==> r.event.None? && |AskedRows(rows, room, ts, direction)| > cap)
  }

  function AcceptsAt(rows: seq<Event>, accepts: Event -> bool): nat -> bool {
    (p: nat) => p < |rows| && accepts(rows[p])
  }

  // ---------------------------------------------------------------- the index's search means that

  function EntryAt(rows: seq<Event>, p: nat): TimeEntry
    requires p < |rows| && OriginTs(rows[p]).Some?
  {
    TimeEntry(OriginTs(rows[p]).value, rows[p].depth, rows[p].streamOrdering, p)
  }

  lemma CandidateIsAsked(parse: Bytes -> Option<Json>, keyOf: Event -> RowKey, rows: seq<Event>,
                         room: Bytes, ts: int, direction: TimeDirection, e: TimeEntry)
    requires ReadsRows(keyOf, parse)
    ensures Candidate(Map(keyOf, rows), room, ts, direction, e) <==>
            Asked(rows, room, ts, direction, e.position) && e == EntryAt(rows, e.position)
  {
    if e.position < |rows| {
      assert ReadsRow(keyOf, parse, rows[e.position]);
      RowTime(parse, rows[e.position]);
    }
  }

  lemma NearerIsBefore(rows: seq<Event>, direction: TimeDirection, p: nat, q: nat)
    requires p < |rows| && q < |rows| && OriginTs(rows[p]).Some? && OriginTs(rows[q]).Some?
    ensures Nearer(direction, EntryAt(rows, p), EntryAt(rows, q)) <==>
            if direction.Forwards? then Before(rows, p, q) else Before(rows, q, p)
  {
  }

  function Positions(passed: seq<TimeEntry>): seq<nat> {
    seq(|passed|, i requires 0 <= i < |passed| => passed[i].position)
  }

  /** The refused entries are as many asked rows, none of them taken, and nearer than every other asked row. */
  lemma RefusedRows(parse: Bytes -> Option<Json>, keyOf: Event -> RowKey, rows: seq<Event>,
                    room: Bytes, ts: int, direction: TimeDirection,
                    accepts: Event -> bool, passed: seq<TimeEntry>)
    requires ReadsRows(keyOf, parse) && Passed(Map(keyOf, rows), room, ts, direction, AcceptsAt(rows, accepts), passed)
    ensures var refused := Elements(Positions(passed));
            && |refused| == |passed| && refused <= AskedRows(rows, room, ts, direction)
            && forall q :: q in refused ==> !accepts(rows[q]) && EntryAt(rows, q) in passed
  {
    var ks, ps := Map(keyOf, rows), Positions(passed);
    PassedDistinct(ks, room, ts, direction, AcceptsAt(rows, accepts), passed);
    forall i | 0 <= i < |passed|
      ensures Asked(rows, room, ts, direction, ps[i]) && passed[i] == EntryAt(rows, ps[i]) && !accepts(rows[ps[i]])
    {
      CandidateIsAsked(parse, keyOf, rows, room, ts, direction, passed[i]);
    }
    assert NoDup(ps);
    DistinctCount(ps);
  }

  lemma RefusedAreCloser(parse: Bytes -> Option<Json>, keyOf: Event -> RowKey, rows: seq<Event>,
                         room: Bytes, ts: int, direction: TimeDirection,
                         accepts: Event -> bool, passed: seq<TimeEntry>, p: nat)
    requires ReadsRows(keyOf, parse) && Passed(Map(keyOf, rows), room, ts, direction, AcceptsAt(rows, accepts), passed)
    requires Asked(rows, room, ts, direction, p) && EntryAt(rows, p) !in passed
    ensures Elements(Positions(passed)) <= Closer(rows, room, ts, direction, p)
  {
    RefusedRows(parse, keyOf, rows, room, ts, direction, accepts, passed);
    CandidateIsAsked(parse, keyOf, rows, room, ts, direction, EntryAt(rows, p));
    forall q | q in Elements(Positions(passed)) ensures q in Closer(rows, room, ts, direction, p) {
      var i :| 0 <= i < |passed| && passed[i] == EntryAt(rows, q);
      assert Nearer(direction, passed[i], EntryAt(rows, p));
      NearerIsBefore(rows, direction, q, p);
    }
  }

  /** A row is offered before the cap only if it is among the refused ones or no more than they are nearer. */
  lemma OfferedIsRefused(parse: Bytes -> Option<Json>, keyOf: Event -> RowKey, rows: seq<Event>,
                         room: Bytes, ts: int, direction: TimeDirection,
                         accepts: Event -> bool, passed: seq<TimeEntry>, p: nat)
    requires ReadsRows(keyOf, parse) && Passed(Map(keyOf, rows), room, ts, direction, AcceptsAt(rows, accepts), passed)
    requires Asked(rows, room, ts, direction, p) && |Closer(rows, room, ts, direction, p)| < |passed|
    ensures !accepts(rows[p])
  {
    RefusedRows(parse, keyOf, rows, room, ts, direction, accepts, passed);
    var refused, closer := Elements(Positions(passed)), Closer(rows, room, ts, direction, p);
    if EntryAt(rows, p) !in passed {
      RefusedAreCloser(parse, keyOf, rows, room, ts, direction, accepts, passed, p);
      SubsetSize(refused, closer);
    } else {
      var i :| 0 <= i < |passed| && passed[i] == EntryAt(rows, p);
      assert Positions(passed)[i] == p;
    }
  }

  lemma FoundIsAnswer(parse: Bytes -> Option<Json>, keyOf: Event -> RowKey, rows: seq<Event>,
                      room: Bytes, ts: int, direction: TimeDirection,
                      accepts: Event -> bool, cap: nat, e: TimeEntry, passed: seq<TimeEntry>)
    requires ReadsRows(keyOf, parse)
    requires FoundAfter(Map(keyOf, rows), room, ts, direction, AcceptsAt(rows, accepts), cap, e, passed)
    ensures Answer(rows, room, ts, direction, accepts, cap, NearestByTime(Some(e.position), false))
  {
    var p, refused := e.position, Elements(Positions(passed));
    CandidateIsAsked(parse, keyOf, rows, room, ts, direction, e);
    RefusedRows(parse, keyOf, rows, room, ts, direction, accepts, passed);
    var closer := Closer(rows, room, ts, direction, p);
    forall q | q in closer ensures q in refused {
      CandidateIsAsked(parse, keyOf, rows, room, ts, direction, EntryAt(rows, q));
      NearerIsBefore(rows, direction, q, p);
      var i :| 0 <= i < |passed| && passed[i] == EntryAt(rows, q);
      assert Positions(passed)[i] == q;
    }
    SubsetSize(closer, refused);
  }

  /** Every asked row was refused. */
  lemma NoneIsAnswer(parse: Bytes -> Option<Json>, keyOf: Event -> RowKey, rows: seq<Event>,
                     room: Bytes, ts: int, direction: TimeDirection,
                     accepts: Event -> bool, cap: nat, passed: seq<TimeEntry>)
    requires ReadsRows(keyOf, parse) && |passed| <= cap
    requires Passed(Map(keyOf, rows), room, ts, direction, AcceptsAt(rows, accepts), passed)
    requires forall c :: Candidate(Map(keyOf, rows), room, ts, direction, c) ==> c in passed
    ensures Answer(rows, room, ts, direction, accepts, cap, NearestByTime(None, false))
  {
    RefusedRows(parse, keyOf, rows, room, ts, direction, accepts, passed);
    var refused, asked := Elements(Positions(passed)), AskedRows(rows, room, ts, direction);
    forall p | p in asked ensures p in refused {
      CandidateIsAsked(parse, keyOf, rows, room, ts, direction, EntryAt(rows, p));
      var i :| 0 <= i < |passed| && passed[i] == EntryAt(rows, p);
      assert Positions(passed)[i] == p;
    }
    SubsetSize(asked, refused);
    forall p: nat | Asked(rows, room, ts, direction, p) ensures !accepts(rows[p]) {
      assert p in asked;
    }
  }

  /** The cap was spent on refused rows and one more was asked for. */
  lemma TruncatedIsAnswer(parse: Bytes -> Option<Json>, keyOf: Event -> RowKey, rows: seq<Event>,
                          room: Bytes, ts: int, direction: TimeDirection,
                          accepts: Event -> bool, cap: nat, passed: seq<TimeEntry>, c: TimeEntry)
    requires ReadsRows(keyOf, parse) && |passed| == cap
    requires Passed(Map(keyOf, rows), room, ts, direction, AcceptsAt(rows, accepts), passed)
    requires Candidate(Map(keyOf, rows), room, ts, direction, c) && c !in passed
    ensures Answer(rows, room, ts, direction, accepts, cap, NearestByTime(None, true))
  {
    RefusedRows(parse, keyOf, rows, room, ts, direction, accepts, passed);
    CandidateIsAsked(parse, keyOf, rows, room, ts, direction, c);
    var refused, asked := Elements(Positions(passed)), AskedRows(rows, room, ts, direction);
    assert c.position !in refused;
    SubsetSize(refused + {c.position}, asked);
    forall p: nat | Asked(rows, room, ts, direction, p) && |Closer(rows, room, ts, direction, p)| < cap
      ensures !accepts(rows[p])
    {
      OfferedIsRefused(parse, keyOf, rows, room, ts, direction, accepts, passed, p);
    }
  }

  /** What the search of the time index answers is the answer over the rows. */
  lemma SearchMeans(parse: Bytes -> Option<Json>, keyOf: Event -> RowKey, rows: seq<Event>,
                    room: Bytes, ts: int, direction: TimeDirection,
                    accepts: Event -> bool, cap: nat, r: NearestByTime)
    requires ReadsRows(keyOf, parse) && SearchOutcome(Map(keyOf, rows), room, ts, direction, AcceptsAt(rows, accepts), cap, r)
    ensures Answer(rows, room, ts, direction, accepts, cap, r)
  {
    var ks, at := Map(keyOf, rows), AcceptsAt(rows, accepts);
    var passed :| OutcomeAfter(ks, room, ts, direction, at, cap, r, passed);
    if r.event.Some? {
      var e: TimeEntry :| e.position == r.event.value && Candidate(ks, room, ts, direction, e) && e !in passed
        && forall c :: Candidate(ks, room, ts, direction, c) && Nearer(direction, c, e) ==> c in passed;
      FoundIsAnswer(parse, keyOf, rows, room, ts, direction, accepts, cap, e, passed);
    } else if r.truncated {
      var c :| Candidate(ks, room, ts, direction, c) && c !in passed;
      TruncatedIsAnswer(parse, keyOf, rows, room, ts, direction, accepts, cap, passed, c);
    } else {
      NoneIsAnswer(parse, keyOf, rows, room, ts, direction, accepts, cap, passed);
    }
  }

  /** A room whose rows are all off the timeline has no event to answer, however it is asked. */
  lemma OffTimelineIsEmpty(rows: seq<Event>, room: Bytes, ts: int, direction: TimeDirection, accepts: Event -> bool, cap: nat,
                           r: NearestByTime)
    requires Answer(rows, room, ts, direction, accepts, cap, r)
    requires forall e :: e in rows && e.roomId == room ==> e.status in ["outlier", "rejected", "soft_failed"]
    ensures r == NearestByTime(None, false)
  {
    assert AskedRows(rows, room, ts, direction) == {};
  }

  // ---------------------------------------------------------------- the latest timestamp

  /** `ts` is the greatest positive timestamp among the room's rows, or 0 when none is positive. */
  ghost predicate LatestOf(rows: seq<Event>, room: Bytes, ts: int) {
    && ts >= 0
    && (forall e :: e in rows && e.roomId == room && OriginTs(e).Some? ==> OriginTs(e).value <= ts)
    && (ts > 0 ==> exists e :: e in rows && e.roomId == room && OriginTs(e) == Some(ts))
  }

  lemma LatestMeans(parse: Bytes -> Option<Json>, keyOf: Event -> RowKey, rows: seq<Event>, room: Bytes, ts: int)
    requires ReadsRows(keyOf, parse) && IsLatest(Map(keyOf, rows), room, ts)
    ensures LatestOf(rows, room, ts)
  {
    var ks := Map(keyOf, rows);
    forall e | e in rows && e.roomId == room && OriginTs(e).Some? ensures OriginTs(e).value <= ts {
      var p :| 0 <= p < |rows| && rows[p] == e;
      assert ReadsRow(keyOf, parse, e);
      RowTime(parse, e);
      assert Selected(ks, Some(room), p);
    }
    if ts > 0 {
      var p: nat :| Selected(ks, Some(room), p) && LatestTs(ks[p]) == ts;
      assert ReadsRow(keyOf, parse, rows[p]);
      RowTime(parse, rows[p]);
      assert rows[p] in rows && OriginTs(rows[p]) == Some(ts);
    }
  }

  // ---------------------------------------------------------------- relations

  /** The first member of that name has that value. */
  ghost predicate HasMember(v: Json, name: Bytes, value: Json) {
    v.Obj? && exists i :: 0 <= i < |v.members| && v.members[i] == Member(name, value)
                          && forall j :: 0 <= j < i ==> v.members[j].key != name
  }

  /** `content`, `m.relates_to`, and in it the target and the relation type. */
  ghost predicate Relates(v: Json, target: Bytes, relType: Bytes) {
    exists content, relates ::
      && HasMember(v, Ascii("content"), content) && HasMember(content, Ascii("m.relates_to"), relates)
      && HasMember(relates, Ascii("event_id"), Str(target)) && HasMember(relates, Ascii("rel_type"), Str(relType))
  }

  function RelationTypeOf(kind: RelationKind): Bytes {
    match kind
    case Replace => Ascii("m.replace")
    case Thread => Ascii("m.thread")
    case Reference => Ascii("m.reference")
  }

  /** The stored event relates to the target: as parsed, if its text holds the quoted member name at all. */
  ghost predicate RelatesTo(parse: Bytes -> Option<Json>, e: Event, target: Bytes, kind: RelationKind) {
    && Occurs(Ascii("\"m.relates_to\""), e.json) && parse(e.json).Some?
    && Relates(parse(e.json).value, target, RelationTypeOf(kind)) && 1 <= |target| <= 255
  }

  lemma {:induction false} NamedIsFirst(members: seq<Member>, name: Bytes, value: Json)
    ensures MemberNamed(members, name) == Some(value) <==> HasMember(Obj(members), name, value)
  {
    if members != [] {
      var rest := members[1..];
      NamedIsFirst(rest, name, value);
      assert forall i :: 0 <= i < |rest| ==> rest[i] == members[i + 1];
      if members[0].key == name {
        assert members[0].value == value ==> members[0] == Member(name, value);
      } else {
        FirstInRest(members, name, value);
      }
    }
  }

  lemma FirstInRest(members: seq<Member>, name: Bytes, value: Json)
    requires members != [] && members[0].key != name
    ensures HasMember(Obj(members[1..]), name, value) <==> HasMember(Obj(members), name, value)
  {
    if HasMember(Obj(members[1..]), name, value) {
      FirstMovesOn(members, name, value);
    }
    if HasMember(Obj(members), name, value) {
      FirstMovesBack(members, name, value);
    }
  }

  lemma FirstMovesOn(members: seq<Member>, name: Bytes, value: Json)
    requires members != [] && members[0].key != name && HasMember(Obj(members[1..]), name, value)
    ensures HasMember(Obj(members), name, value)
  {
    var w := Obj(members[1..]).members;
    var i :| 0 <= i < |w| && w[i] == Member(name, value) && forall j :: 0 <= j < i ==> w[j].key != name;
    assert Obj(members).members[i + 1] == Member(name, value);
    assert forall j :: 0 < j < i + 1 ==> members[j] == w[j - 1];
  }

  lemma FirstMovesBack(members: seq<Member>, name: Bytes, value: Json)
    requires members != [] && members[0].key != name && HasMember(Obj(members), name, value)
    ensures HasMember(Obj(members[1..]), name, value)
  {
    var w := Obj(members[1..]).members;
    var i :| 0 <= i < |members| && members[i] == Member(name, value) && forall j :: 0 <= j < i ==> members[j].key != name;
    assert w[i - 1] == Member(name, value);
    assert forall j :: 0 <= j < i - 1 ==> w[j] == members[j + 1];
  }

  lemma NamesAreLiteral()
    ensures CONTENT == Ascii("content") && M_RELATES_TO == Ascii("m.relates_to")
    ensures EVENT_ID == Ascii("event_id") && REL_TYPE == Ascii("rel_type")
    ensures M_REPLACE == Ascii("m.replace") && M_THREAD == Ascii("m.thread") && M_REFERENCE == Ascii("m.reference")
  {
  }

  lemma KindIsNamed(relType: Bytes, kind: RelationKind)
    ensures KindOf(relType) == Some(kind) <==> relType == RelationTypeOf(kind)
  {
    NamesAreLiteral();
    assert Ascii("m.replace")[2] != Ascii("m.thread")[2] && Ascii("m.thread")[2] != Ascii("m.reference")[2];
    assert |Ascii("m.replace")| != |Ascii("m.reference")|;
  }

  lemma ObjectMemberIs(v: Option<Json>, name: Bytes, value: Json)
    ensures ObjectMember(v, name) == Some(value) <==> v.Some? && value.Obj? && HasMember(v.value, name, value)
  {
    if v.Some? && v.value.Obj? {
      NamedIsFirst(v.value.members, name, value);
    }
  }

  lemma StringMemberIs(v: Option<Json>, name: Bytes, s: Bytes)
    ensures StringMember(v, name) == Some(s) <==> v.Some? && HasMember(v.value, name, Str(s))
  {
    if v.Some? && v.value.Obj? {
      NamedIsFirst(v.value.members, name, Str(s));
    }
  }

  lemma RelatesIsRead(v: Json, target: Bytes, relType: Bytes)
    ensures var relates := ObjectMember(ObjectMember(Some(v), CONTENT), M_RELATES_TO);
            (StringMember(relates, EVENT_ID) == Some(target) && StringMember(relates, REL_TYPE) == Some(relType))
            <==> Relates(v, target, relType)
  {
    NamesAreLiteral();
    var content := ObjectMember(Some(v), CONTENT);
    var relates := ObjectMember(content, M_RELATES_TO);
    StringMemberIs(relates, EVENT_ID, target);
    StringMemberIs(relates, REL_TYPE, relType);
    if relates.Some? {
      ObjectMemberIs(Some(v), CONTENT, content.value);
      ObjectMemberIs(content, M_RELATES_TO, relates.value);
    }
    forall c, r | HasMember(v, CONTENT, c) && HasMember(c, M_RELATES_TO, r) && HasMember(r, EVENT_ID, Str(target))
      ensures content == Some(c) && relates == Some(r)
    {
      ObjectMemberIs(Some(v), CONTENT, c);
      ObjectMemberIs(content, M_RELATES_TO, r);
    }
  }

  /** A parsed event declares a relation exactly when the named members spell one with a usable target. */
  lemma DeclaredIsSpelt(v: Json, target: Bytes, kind: RelationKind)
    ensures DeclaredRelation(Some(v)) == Some(RelationKey(target, kind)) <==>
            Relates(v, target, RelationTypeOf(kind)) && 1 <= |target| <= 255
  {
    var relates := ObjectMember(ObjectMember(Some(v), CONTENT), M_RELATES_TO);
    RelatesIsRead(v, target, RelationTypeOf(kind));
    KindIsNamed(RelationTypeOf(kind), kind);
    var relType := StringMember(relates, REL_TYPE);
    if relType.Some? {
      KindIsNamed(relType.value, kind);
    }
  }

  lemma QuotedBytes()
    ensures TopLevelInteger.Plain(M_RELATES_TO) && [34] + M_RELATES_TO + [34] == Ascii("\"m.relates_to\"")
  {
  }

  lemma QuotedName(name: Bytes)
    requires name == M_RELATES_TO
    ensures Quote(name) == Ascii("\"m.relates_to\"")
  {
    QuotedBytes();
    PlainQuote(name);
  }

  lemma PlainQuote(name: Bytes)
    requires TopLevelInteger.Plain(name)
    ensures Quote(name) == [34] + name + [34]
  {
    TopLevelInteger.PlainEscapes(name);
  }

  lemma RelationMeans(parse: Bytes -> Option<Json>, keyOf: Event -> RowKey, e: Event, target: Bytes, kind: RelationKind)
    requires ReadsRows(keyOf, parse)
    ensures keyOf(e).relation == Some(RelationKey(target, kind)) <==> RelatesTo(parse, e, target, kind)
  {
    assert ReadsRow(keyOf, parse, e);
    QuotedName(M_RELATES_TO);
    if parse(e.json).Some? {
      DeclaredIsSpelt(parse(e.json).value, target, kind);
    }
  }
}
