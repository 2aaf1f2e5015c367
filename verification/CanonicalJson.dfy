/**
 JSON values and their canonical text, as the strict serializer used for signing and hashing writes
 it ("Canonical JSON", Matrix v1.19 appendices).
 */
module CanonicalJson {
  import opened Prelude
  import opened ByteOrder
  import opened SortedLists
  import opened Decimal
  import Utf8

  /** `Missing` is a member without a value (null in the source). */
  datatype Json =
    | Null
    | Bool(b: bool)
    | Int(n: int64)
    | Double(d: real)
    | Raw(token: Bytes)
    | Str(s: Bytes)
    | Arr(items: seq<Json>)
    | Obj(members: seq<Member>)
    | Missing

  datatype Member = Member(key: Bytes, value: Json)

  datatype Error = DuplicateObjectKey | InvalidString | FloatNotAllowed

  datatype Serialized = Ok(output: Bytes) | Err(error: Error)

  /** A member whose value has been serialized. */
  datatype Entry = Entry(key: Bytes, text: Bytes)

  const QUOTE: byte := 34
  const BACKSLASH: byte := 92
  const COMMA: byte := 44
  const COLON: byte := 58
  const OPEN_ARRAY: byte := 91
  const CLOSE_ARRAY: byte := 93
  const OPEN_OBJECT: byte := 123
  const CLOSE_OBJECT: byte := 125

  const NULL_TEXT: Bytes := [110, 117, 108, 108]       // null
  const TRUE_TEXT: Bytes := [116, 114, 117, 101]       // true
  const FALSE_TEXT: Bytes := [102, 97, 108, 115, 101]  // false

  // ---------------------------------------------------------------- strings

  function HexDigit(n: int): byte
    requires 0 <= n < 16
  {
    if n < 10 then 48 + n else 87 + n
  }

  function EscapeByte(b: byte): Bytes {
    if b == QUOTE then [BACKSLASH, QUOTE]
    else if b == BACKSLASH then [BACKSLASH, BACKSLASH]
    else if b == 8 then [BACKSLASH, 98]
    else if b == 12 then [BACKSLASH, 102]
    else if b == 10 then [BACKSLASH, 110]
    else if b == 13 then [BACKSLASH, 114]
    else if b == 9 then [BACKSLASH, 116]
    else if b < 32 then [BACKSLASH, 117, 48, 48, HexDigit(b / 16), HexDigit(b % 16)]
    else [b]
  }

  function Escape(s: Bytes): Bytes {
    if s == [] then [] else EscapeByte(s[0]) + Escape(s[1..])
  }

  function Quote(s: Bytes): Bytes {
    [QUOTE] + Escape(s) + [QUOTE]
  }

  // ---------------------------------------------------------------- arrays and objects

  function Join(texts: seq<Bytes>): Bytes {
    if texts == [] then []
    else if |texts| == 1 then texts[0]
    else texts[0] + [COMMA] + Join(texts[1..])
  }

  lemma JoinCons(text: Bytes, rest: seq<Bytes>)
    requires rest != []
    ensures Join([text] + rest) == text + [COMMA] + Join(rest)
  {
    assert ([text] + rest)[1..] == rest;
  }

  function EntryText(e: Entry): Bytes {
    Quote(e.key) + [COLON] + e.text
  }

  function ByKey(): (Entry, Entry) -> bool {
    (a: Entry, b: Entry) => LexLess(a.key, b.key)
  }

  function ByMemberKey(): (Member, Member) -> bool {
    (a: Member, b: Member) => LexLess(a.key, b.key)
  }

  function ObjectText(entries: seq<Entry>): Bytes {
    [OPEN_OBJECT] + Join(Map(EntryText, StableSort(ByKey(), entries))) + [CLOSE_OBJECT]
  }

  predicate HasDuplicateKeys(members: seq<Member>) {
    exists i, j :: 0 <= i < j < |members| && members[i].key == members[j].key
  }

  datatype Pieces<T> = Done(pieces: seq<T>) | Failed(error: Error)

  /** The strict serializer: the text of a value, or the first error met from left to right. */
  function Serialize(v: Json): Serialized
    decreases v, 1
  {
    match v
    case Null => Ok(NULL_TEXT)
    case Bool(b) => Ok(if b then TRUE_TEXT else FALSE_TEXT)
    case Int(n) => Ok(Print(n))
    case Double(_) => Err(FloatNotAllowed)
    case Raw(_) => Err(FloatNotAllowed)
    case Str(s) => if Utf8.Valid(s) then Ok(Quote(s)) else Err(InvalidString)
    case Arr(items) =>
      (match SerializeItems(items)
       case Failed(e) => Err(e)
       case Done(texts) => Ok([OPEN_ARRAY] + Join(texts) + [CLOSE_ARRAY]))
    case Obj(members) =>
      if HasDuplicateKeys(members) then Err(DuplicateObjectKey)
      else
        (match SerializeMembers(members)
         case Failed(e) => Err(e)
         case Done(entries) => Ok(ObjectText(entries)))
    case Missing => Err(InvalidString)
  }

  function SerializeItems(items: seq<Json>): Pieces<Bytes>
    decreases items, 0
  {
    if items == [] then Done([])
    else
      match SerializeItems(items[..|items| - 1])
      case Failed(e) => Failed(e)
      case Done(texts) =>
        match Serialize(items[|items| - 1])
        case Err(e) => Failed(e)
        case Ok(text) => Done(texts + [text])
  }

  function SerializeMembers(members: seq<Member>): Pieces<Entry>
    decreases members, 0
  {
    if members == [] then Done([])
    else
      match SerializeMembers(members[..|members| - 1])
      case Failed(e) => Failed(e)
      case Done(entries) =>
        var m := members[|members| - 1];
        if m.value.Missing? || !Utf8.Valid(m.key) then Failed(InvalidString)
        else
          match Serialize(m.value)
          case Err(e) => Failed(e)
          case Ok(text) => Done(entries + [Entry(m.key, text)])
  }

  // ---------------------------------------------------------------- what is accepted, and its text

  /** No repeated key, only valid UTF-8, and only integers, at every level. */
  predicate Acceptable(v: Json) {
    match v
    case Null => true
    case Bool(_) => true
    case Int(_) => true
    case Str(s) => Utf8.Valid(s)
    case Arr(items) => forall i :: 0 <= i < |items| ==> Acceptable(items[i])
    case Obj(members) =>
      !HasDuplicateKeys(members) &&
      forall i :: 0 <= i < |members| ==> Utf8.Valid(members[i].key) && Acceptable(members[i].value)
    case _ => false
  }

  /** The canonical text of an acceptable value. */
  function Text(v: Json): Bytes {
    match v
    case Null => NULL_TEXT
    case Bool(b) => if b then TRUE_TEXT else FALSE_TEXT
    case Int(n) => Print(n)
    case Str(s) => Quote(s)
    case Arr(items) =>
      [OPEN_ARRAY] + Join(seq(|items|, i requires 0 <= i < |items| => Text(items[i]))) + [CLOSE_ARRAY]
    case Obj(members) =>
      ObjectText(seq(|members|, i requires 0 <= i < |members| => Entry(members[i].key, Text(members[i].value))))
    case _ => []
  }

  function ToEntry(m: Member): Entry {
    Entry(m.key, Text(m.value))
  }

  lemma ArrayText(items: seq<Json>)
    ensures Text(Arr(items)) == [OPEN_ARRAY] + Join(Map(Text, items)) + [CLOSE_ARRAY]
  {
    var texts := seq(|items|, i requires 0 <= i < |items| => Text(items[i]));
    assert Text(Arr(items)) == [OPEN_ARRAY] + Join(texts) + [CLOSE_ARRAY];
    assert texts == Map(Text, items);
  }

  lemma ObjText(members: seq<Member>)
    ensures Text(Obj(members)) == ObjectText(Map(ToEntry, members))
  {
    var entries := seq(|members|, i requires 0 <= i < |members| => Entry(members[i].key, Text(members[i].value)));
    assert Text(Obj(members)) == ObjectText(entries);
    assert entries == Map(ToEntry, members);
  }

  lemma ItemsAppend(init: seq<Json>, v: Json)
    ensures SerializeItems(init + [v]) ==
            match SerializeItems(init)
            case Failed(e) => Failed(e)
            case Done(texts) =>
              match Serialize(v)
              case Err(e) => Failed(e)
              case Ok(text) => Done(texts + [text])
  {
    assert (init + [v])[..|init|] == init;
  }

  ghost predicate AllAcceptable(items: seq<Json>) {
    forall i :: 0 <= i < |items| ==> Acceptable(items[i])
  }

  lemma AcceptableAppend(init: seq<Json>, v: Json)
    ensures AllAcceptable(init + [v]) <==> AllAcceptable(init) && Acceptable(v)
  {
    var items := init + [v];
    assert items[|init|] == v && forall i :: 0 <= i < |init| ==> items[i] == init[i];
  }

  lemma MapAppend<T, U>(f: T -> U, init: seq<T>, x: T)
    ensures Map(f, init + [x]) == Map(f, init) + [f(x)]
  {
  }

  lemma {:induction false} ItemsText(items: seq<Json>)
    ensures SerializeItems(items).Done? <==> AllAcceptable(items)
    ensures SerializeItems(items).Done? ==> SerializeItems(items).pieces == Map(Text, items)
    decreases items, 0
  {
    if items != [] {
      var init, v := items[..|items| - 1], items[|items| - 1];
      ItemsText(init);
      SerializeIsText(v);
      assert items == init + [v];
      ItemsAppend(init, v);
      AcceptableAppend(init, v);
      MapAppend(Text, init, v);
    }
  }

  predicate GoodMember(m: Member) {
    Utf8.Valid(m.key) && Acceptable(m.value)
  }

  ghost predicate AllGood(members: seq<Member>) {
    forall i :: 0 <= i < |members| ==> GoodMember(members[i])
  }

  lemma GoodAppend(init: seq<Member>, m: Member)
    ensures AllGood(init + [m]) <==> AllGood(init) && GoodMember(m)
  {
    var members := init + [m];
    assert members[|init|] == m && forall i :: 0 <= i < |init| ==> members[i] == init[i];
  }

  function SerializeMember(m: Member): Pieces<Entry> {
    if m.value.Missing? || !Utf8.Valid(m.key) then Failed(InvalidString)
    else
      match Serialize(m.value)
      case Err(e) => Failed(e)
      case Ok(text) => Done([Entry(m.key, text)])
  }

  lemma MembersAppend(init: seq<Member>, m: Member)
    ensures SerializeMembers(init + [m]) ==
            if SerializeMembers(init).Failed? then SerializeMembers(init)
            else if SerializeMember(m).Failed? then SerializeMember(m)
            else Done(SerializeMembers(init).pieces + SerializeMember(m).pieces)
  {
    assert (init + [m])[..|init|] == init;
  }

  lemma MemberText(m: Member)
    requires Serialize(m.value).Ok? <==> Acceptable(m.value)
    requires Serialize(m.value).Ok? ==> Serialize(m.value).output == Text(m.value)
    ensures SerializeMember(m).Done? <==> GoodMember(m)
    ensures SerializeMember(m).Done? ==> SerializeMember(m).pieces == [ToEntry(m)]
  {
  }

  lemma {:induction false} MembersText(members: seq<Member>)
    ensures SerializeMembers(members).Done? <==> AllGood(members)
    ensures SerializeMembers(members).Done? ==> SerializeMembers(members).pieces == Map(ToEntry, members)
    decreases members, 0
  {
    if members != [] {
      var init, m := members[..|members| - 1], members[|members| - 1];
      MembersText(init);
      SerializeIsText(m.value);
      MemberText(m);
      assert members == init + [m];
      MembersAppend(init, m);
      GoodAppend(init, m);
      MapAppend(ToEntry, init, m);
    }
  }

  /** Strict serialization succeeds exactly on acceptable trees, and then gives their canonical text. */
  lemma {:induction false} SerializeIsText(v: Json)
    ensures Serialize(v).Ok? <==> Acceptable(v)
    ensures Serialize(v).Ok? ==> Serialize(v).output == Text(v)
    decreases v, 1
  {
    match v {
      case Arr(items) =>
        ItemsText(items);
        ArrayText(items);
      case Obj(members) =>
        MembersText(members);
        ObjText(members);
      case _ =>
    }
  }
}
