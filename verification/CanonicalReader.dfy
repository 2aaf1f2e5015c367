/**
 A reference reader for canonical JSON text, and the proof that it reads back every text the strict
 serializer writes. So the text determines the value, up to the order of object members.
 */
module CanonicalReader {
  import opened Prelude
  import opened SortedLists
  import opened Decimal
  import opened CanonicalJson

  datatype Read<+T> = Failure | Success(value: T, rest: Bytes)

  function HexValue(b: byte): Option<int> {
    if 48 <= b <= 57 then Some(b - 48)
    else if 97 <= b <= 102 then Some(b - 87)
    else None
  }

  /** One character of a string: an escape sequence or a byte as it stands. */
  function ReadCharacter(s: Bytes): (r: Read<byte>)
    ensures r.Success? ==> |r.rest| < |s|
  {
    if s == [] then Failure
    else if s[0] != BACKSLASH then Success(s[0], s[1..])
    else if |s| < 2 then Failure
    else if s[1] == QUOTE then Success(QUOTE, s[2..])
    else if s[1] == BACKSLASH then Success(BACKSLASH, s[2..])
    else if s[1] == 98 then Success(8, s[2..])
    else if s[1] == 102 then Success(12, s[2..])
    else if s[1] == 110 then Success(10, s[2..])
    else if s[1] == 114 then Success(13, s[2..])
    else if s[1] == 116 then Success(9, s[2..])
    else if s[1] == 117 && |s| >= 6 && s[2] == 48 && s[3] == 48 && HexValue(s[4]).Some? && HexValue(s[5]).Some? then
      Success(HexValue(s[4]).value * 16 + HexValue(s[5]).value, s[6..])
    else Failure
  }

  /** The string up to its closing quote. */
  function ReadString(s: Bytes): (r: Read<Bytes>)
    ensures r.Success? ==> |r.rest| < |s|
    decreases |s|
  {
    if s == [] then Failure
    else if s[0] == QUOTE then Success([], s[1..])
    else
      match ReadCharacter(s)
      case Failure => Failure
      case Success(c, rest) =>
        match ReadString(rest)
        case Failure => Failure
        case Success(cs, rest') => Success([c] + cs, rest')
  }

  function ReadLiteral(s: Bytes, literal: Bytes, v: Json): (r: Read<Json>)
    requires literal != []
    ensures r.Success? ==> |r.rest| < |s|
  {
    if literal <= s then Success(v, s[|literal|..]) else Failure
  }

  function ReadInt(s: Bytes): (r: Read<Json>)
    ensures r.Success? ==> |r.rest| < |s|
  {
    match FromCharsInt64(s)
    case Parsed(n, length) => if 0 < length <= |s| then Success(Int(n), s[length..]) else Failure
    case _ => Failure
  }

  function ReadValue(s: Bytes): (r: Read<Json>)
    ensures r.Success? ==> |r.rest| < |s|
    decreases |s|, 1
  {
    if s == [] then Failure
    else if s[0] == 110 then ReadLiteral(s, NULL_TEXT, Null)
    else if s[0] == 116 then ReadLiteral(s, TRUE_TEXT, Bool(true))
    else if s[0] == 102 then ReadLiteral(s, FALSE_TEXT, Bool(false))
    else if s[0] == QUOTE then
      (match ReadString(s[1..])
       case Failure => Failure
       case Success(str, rest) => Success(Str(str), rest))
    else if s[0] == OPEN_ARRAY then
      if |s| > 1 && s[1] == CLOSE_ARRAY then Success(Arr([]), s[2..])
      else
        (match ReadItems(s[1..])
         case Failure => Failure
         case Success(items, rest) => Success(Arr(items), rest))
    else if s[0] == OPEN_OBJECT then
      if |s| > 1 && s[1] == CLOSE_OBJECT then Success(Obj([]), s[2..])
      else
        (match ReadMembers(s[1..])
         case Failure => Failure
         case Success(members, rest) => Success(Obj(members), rest))
    else ReadInt(s)
  }

  /** The items of an array up to its closing bracket; at least one. */
  function ReadItems(s: Bytes): (r: Read<seq<Json>>)
    ensures r.Success? ==> |r.rest| < |s|
    decreases |s|, 2
  {
    match ReadValue(s)
    case Failure => Failure
    case Success(v, rest) =>
      if rest == [] then Failure
      else if rest[0] == CLOSE_ARRAY then Success([v], rest[1..])
      else if rest[0] == COMMA then
        (match ReadItems(rest[1..])
         case Failure => Failure
         case Success(vs, rest') => Success([v] + vs, rest'))
      else Failure
  }

  function ReadMember(s: Bytes): (r: Read<Member>)
    ensures r.Success? ==> |r.rest| < |s|
    decreases |s|, 2
  {
    if s == [] || s[0] != QUOTE then Failure
    else
      match ReadString(s[1..])
      case Failure => Failure
      case Success(key, rest) =>
        if rest == [] || rest[0] != COLON then Failure
        else
          match ReadValue(rest[1..])
          case Failure => Failure
          case Success(v, rest') => Success(Member(key, v), rest')
  }

  /** The members of an object up to its closing brace; at least one. */
  function ReadMembers(s: Bytes): (r: Read<seq<Member>>)
    ensures r.Success? ==> |r.rest| < |s|
    decreases |s|, 3
  {
    match ReadMember(s)
    case Failure => Failure
    case Success(m, rest) =>
      if rest == [] then Failure
      else if rest[0] == CLOSE_OBJECT then Success([m], rest[1..])
      else if rest[0] == COMMA then
        (match ReadMembers(rest[1..])
         case Failure => Failure
         case Success(ms, rest') => Success([m] + ms, rest'))
      else Failure
  }

  // ---------------------------------------------------------------- reading back strings

  lemma CharacterReadsBack(b: byte, rest: Bytes)
    ensures ReadCharacter(EscapeByte(b) + rest) == Success(b, rest)
    ensures (EscapeByte(b) + rest)[0] != QUOTE
  {
    var e := EscapeByte(b);
    var s := e + rest;
    assert s[|e|..] == rest;
    assert forall i :: 0 <= i < |e| ==> s[i] == e[i];
  }

  lemma EscapeCons(b: byte, x: Bytes, tail: Bytes)
    ensures Escape([b] + x) + tail == EscapeByte(b) + (Escape(x) + tail)
  {
    assert ([b] + x)[1..] == x;
  }

  lemma StringEnds(rest: Bytes)
    ensures ReadString(Escape([]) + ([QUOTE] + rest)) == Success([], rest)
  {
    assert Escape([]) + ([QUOTE] + rest) == [QUOTE] + rest;
  }

  lemma StringStep(b: byte, x: Bytes, rest: Bytes)
    requires ReadString(Escape(x) + ([QUOTE] + rest)) == Success(x, rest)
    ensures ReadString(Escape([b] + x) + ([QUOTE] + rest)) == Success([b] + x, rest)
  {
    var more := Escape(x) + ([QUOTE] + rest);
    EscapeCons(b, x, [QUOTE] + rest);
    CharacterReadsBack(b, more);
  }

  lemma {:induction false} StringReadsBack(x: Bytes, rest: Bytes)
    ensures ReadString(Escape(x) + ([QUOTE] + rest)) == Success(x, rest)
  {
    if x == [] {
      StringEnds(rest);
    } else {
      var y := x[1..];
      StringReadsBack(y, rest);
      StringStep(x[0], y, rest);
      assert x == [x[0]] + y;
    }
  }

  /** A quoted string without its opening quote. */
  lemma QuoteTail(x: Bytes, rest: Bytes)
    ensures (Quote(x) + rest)[0] == QUOTE && (Quote(x) + rest)[1..] == Escape(x) + ([QUOTE] + rest)
  {
  }

  lemma QuoteReadsBack(x: Bytes, rest: Bytes)
    ensures (Quote(x) + rest)[0] == QUOTE
    ensures ReadString((Quote(x) + rest)[1..]) == Success(x, rest)
  {
    QuoteTail(x, rest);
    StringReadsBack(x, rest);
  }

  // ---------------------------------------------------------------- the shortest escaped text

  predicate NoControl(t: Bytes) {
    forall i :: 0 <= i < |t| ==> t[i] >= 32
  }

  lemma EscapedByteHasNoControl(b: byte)
    ensures NoControl(EscapeByte(b))
  {
  }

  lemma {:induction false} EscapeHasNoControl(s: Bytes)
    ensures NoControl(Escape(s))
  {
    if s != [] {
      EscapedByteHasNoControl(s[0]);
      EscapeHasNoControl(s[1..]);
    }
  }

  /** The text one character was read from is its escape, or longer than its escape. */
  lemma CharacterIsShortest(t: Bytes, c: byte, rest: Bytes) returns (n: nat)
    requires t != [] && NoControl(t) && t[0] != QUOTE && rest != [] && ReadCharacter(t + [QUOTE]) == Success(c, rest)
    ensures 0 < n <= |t| && rest == t[n..] + [QUOTE]
    ensures NoShorter(t[..n], EscapeByte(c))
  {
    var s := t + [QUOTE];
    n := |s| - |rest|;
    assert rest == s[n..] == t[n..] + [QUOTE];
    assert forall i :: 0 <= i < |t| ==> s[i] == t[i];
    if n == 1 {
      assert t[..n] == [c];
    } else if n == 2 {
      assert t[..n] == [t[0], t[1]];
    } else {
      LongEscape(t, c);
    }
  }

  /** A byte may be read from a long escape; its own escape is that one, or shorter. */
  lemma LongEscape(t: Bytes, c: byte)
    requires |t| >= 6 && t[0] == BACKSLASH && t[1] == 117 && t[2] == 48 && t[3] == 48
    requires HexValue(t[4]).Some? && HexValue(t[5]).Some? && c == HexValue(t[4]).value * 16 + HexValue(t[5]).value
    ensures NoShorter(t[..6], EscapeByte(c))
  {
    assert HexValue(t[4]).value == c / 16 && HexValue(t[5]).value == c % 16;
    assert t[4] == HexDigit(c / 16) && t[5] == HexDigit(c % 16);
    assert t[..6] == [t[0], t[1], t[2], t[3], t[4], t[5]];
  }

  /** A string read to its end starts with a character and goes on as a string. */
  lemma StringUnfolds(t: Bytes, s: Bytes) returns (c: byte, rest: Bytes)
    requires t != [] && ReadString(t + [QUOTE]) == Success(s, [])
    ensures t[0] != QUOTE && ReadCharacter(t + [QUOTE]) == Success(c, rest) && rest != []
    ensures s != [] && c == s[0] && ReadString(rest) == Success(s[1..], [])
  {
    assert (t + [QUOTE])[0] == t[0] && (t + [QUOTE])[1..] == t[1..] + [QUOTE];
    var r := ReadCharacter(t + [QUOTE]);
    c, rest := r.value, r.rest;
    var y := ReadString(rest).value;
    assert s == [c] + y && s[1..] == y;
  }

  /** `t` is the text, or longer than it. */
  predicate NoShorter(t: Bytes, text: Bytes) {
    t == text || |text| < |t|
  }

  lemma NoShorterConcat(a: Bytes, b: Bytes, x: Bytes, y: Bytes)
    requires NoShorter(a, x) && NoShorter(b, y)
    ensures NoShorter(a + b, x + y)
  {
  }

  lemma ShortestStep(s: Bytes, t: Bytes, n: nat)
    requires s != [] && n <= |t| && NoShorter(t[..n], EscapeByte(s[0])) && NoShorter(t[n..], Escape(s[1..]))
    ensures NoShorter(t, Escape(s))
  {
    NoShorterConcat(t[..n], t[n..], EscapeByte(s[0]), Escape(s[1..]));
    assert t == t[..n] + t[n..];
  }

  lemma EmptyIsRead(s: Bytes)
    requires ReadString([] + [QUOTE]) == Success(s, [])
    ensures s == []
  {
    assert [] + [QUOTE] == [QUOTE];
  }

  /** Of all texts without control bytes that read as the string, the escaped one is the shortest: any other is longer. */
  lemma {:induction false} EscapeIsShortest(s: Bytes, t: Bytes)
    requires NoControl(t) && ReadString(t + [QUOTE]) == Success(s, [])
    ensures NoShorter(t, Escape(s))
    decreases |t|
  {
    if t == [] {
      EmptyIsRead(s);
    } else {
      var c, rest := StringUnfolds(t, s);
      var n := CharacterIsShortest(t, c, rest);
      EscapeIsShortest(s[1..], t[n..]);
      ShortestStep(s, t, n);
    }
  }

  // ---------------------------------------------------------------- reading back values

  /** The value with the members of every object in key order. */
  function Canon(v: Json): Json {
    match v
    case Arr(items) => Arr(seq(|items|, i requires 0 <= i < |items| => Canon(items[i])))
    case Obj(members) =>
      Obj(StableSort(ByMemberKey(),
                     seq(|members|, i requires 0 <= i < |members| => Member(members[i].key, Canon(members[i].value)))))
    case _ => v
  }

  function CanonMember(m: Member): Member {
    Member(m.key, Canon(m.value))
  }

  lemma CanonArray(items: seq<Json>)
    ensures Canon(Arr(items)) == Arr(Map(Canon, items))
  {
    var c := seq(|items|, i requires 0 <= i < |items| => Canon(items[i]));
    assert Canon(Arr(items)) == Arr(c);
    assert c == Map(Canon, items);
  }

  /** Sorting the members and then canonising each is the same as canonising and then sorting. */
  lemma CanonObject(members: seq<Member>)
    ensures Canon(Obj(members)) == Obj(Map(CanonMember, StableSort(ByMemberKey(), members)))
  {
    var c := seq(|members|, i requires 0 <= i < |members| => Member(members[i].key, Canon(members[i].value)));
    assert Canon(Obj(members)) == Obj(StableSort(ByMemberKey(), c));
    assert c == Map(CanonMember, members);
    StableSortMap(ByMemberKey(), ByMemberKey(), CanonMember, members);
  }

  lemma SortedObjText(members: seq<Member>)
    ensures Text(Obj(members)) ==
            [OPEN_OBJECT] + Join(Map(EntryText, Map(ToEntry, StableSort(ByMemberKey(), members)))) + [CLOSE_OBJECT]
  {
    ObjText(members);
    StableSortMap(ByMemberKey(), ByKey(), ToEntry, members);
  }

  /** What may follow a value: nothing, or anything that cannot extend a number. */
  predicate Follow(rest: Bytes) {
    rest == [] || !IsDigit(rest[0])
  }

  lemma TextStart(v: Json)
    requires Acceptable(v)
    ensures Text(v) != [] && Text(v)[0] != CLOSE_ARRAY && Text(v)[0] != CLOSE_OBJECT && Text(v)[0] != COMMA
    ensures v.Int? <==> Text(v)[0] == MINUS || IsDigit(Text(v)[0])
    ensures !v.Null? ==> Text(v)[0] != 110
    ensures !v.Bool? ==> Text(v)[0] != 116 && Text(v)[0] != 102
    ensures v.Str? <==> Text(v)[0] == QUOTE
    ensures v.Arr? <==> Text(v)[0] == OPEN_ARRAY
    ensures v.Obj? <==> Text(v)[0] == OPEN_OBJECT
  {
  }

  /** A comma-separated list, its closing bracket and what follows. */
  function ListText(texts: seq<Bytes>, close: byte, rest: Bytes): Bytes {
    Join(texts) + [close] + rest
  }

  lemma ListTextOne(text: Bytes, close: byte, rest: Bytes)
    ensures ListText([text], close, rest) == text + ([close] + rest)
  {
  }

  lemma Regroup(a: Bytes, b: Bytes, c: Bytes, d: Bytes, e: Bytes)
    ensures a + b + c + d + e == a + (b + (c + d + e))
  {
  }

  lemma ListTextCons(text: Bytes, more: seq<Bytes>, close: byte, rest: Bytes)
    requires more != []
    ensures ListText([text] + more, close, rest) == text + ([COMMA] + ListText(more, close, rest))
  {
    JoinCons(text, more);
    Regroup(text, [COMMA], Join(more), [close], rest);
  }

  lemma ListTextStep(texts: seq<Bytes>, close: byte, rest: Bytes)
    requires |texts| > 0
    ensures ListText(texts, close, rest) ==
            texts[0] + if |texts| == 1 then [close] + rest else [COMMA] + ListText(texts[1..], close, rest)
  {
    assert texts == [texts[0]] + texts[1..];
    if |texts| == 1 {
      assert texts == [texts[0]];
      ListTextOne(texts[0], close, rest);
    } else {
      ListTextCons(texts[0], texts[1..], close, rest);
    }
  }

  /** The list starts as its first text does, or with the closing bracket. */
  lemma ListTextStart(texts: seq<Bytes>, close: byte, rest: Bytes)
    ensures texts == [] ==> ListText(texts, close, rest) == [close] + rest
    ensures texts != [] && texts[0] != [] ==> |ListText(texts, close, rest)| > 0 && ListText(texts, close, rest)[0] == texts[0][0]
  {
    if texts != [] { ListTextStep(texts, close, rest); }
  }

  lemma ReadArrayStep(body: Bytes)
    requires body != []
    ensures body[0] == CLOSE_ARRAY ==> ReadValue([OPEN_ARRAY] + body) == Success(Arr([]), body[1..])
    ensures body[0] != CLOSE_ARRAY && ReadItems(body).Success? ==>
            ReadValue([OPEN_ARRAY] + body) == Success(Arr(ReadItems(body).value), ReadItems(body).rest)
  {
    var s := [OPEN_ARRAY] + body;
    assert s[1..] == body && s[2..] == body[1..];
  }

  lemma ReadObjectStep(body: Bytes)
    requires body != []
    ensures body[0] == CLOSE_OBJECT ==> ReadValue([OPEN_OBJECT] + body) == Success(Obj([]), body[1..])
    ensures body[0] != CLOSE_OBJECT && ReadMembers(body).Success? ==>
            ReadValue([OPEN_OBJECT] + body) == Success(Obj(ReadMembers(body).value), ReadMembers(body).rest)
  {
    var s := [OPEN_OBJECT] + body;
    assert s[1..] == body && s[2..] == body[1..];
  }

  /** The texts of the members, in the order given. */
  function MemberTexts(ms: seq<Member>): seq<Bytes> {
    Map(EntryText, Map(ToEntry, ms))
  }

  lemma SortedMembers(members: seq<Member>)
    ensures var sorted := StableSort(ByMemberKey(), members);
            |sorted| == |members| && forall i :: 0 <= i < |sorted| ==> sorted[i] in members
  {
    var sorted := StableSort(ByMemberKey(), members);
    StableSortElements(ByMemberKey(), members);
    assert |sorted| == |multiset(sorted)| == |members|;
    forall i | 0 <= i < |sorted| ensures sorted[i] in members {
      assert sorted[i] in multiset(sorted);
    }
  }

  /** The text of an object, with what follows it, as a list of its members in key order. */
  lemma ObjectBody(members: seq<Member>, rest: Bytes)
    ensures Text(Obj(members)) + rest ==
            [OPEN_OBJECT] + ListText(MemberTexts(StableSort(ByMemberKey(), members)), CLOSE_OBJECT, rest)
  {
    SortedObjText(members);
  }

  /** Whatever may follow it, the text reads as the value. */
  ghost predicate Readable(text: Bytes, v: Json) {
    forall tail :: Follow(tail) ==> ReadValue(text + tail) == Success(v, tail)
  }

  ghost predicate ReadableMember(text: Bytes, m: Member) {
    forall tail :: Follow(tail) ==> ReadMember(text + tail) == Success(m, tail)
  }

  lemma ItemThenClose(text: Bytes, v: Json, rest: Bytes)
    requires Readable(text, v)
    ensures ReadItems(text + ([CLOSE_ARRAY] + rest)) == Success([v], rest)
  {
    var tail := [CLOSE_ARRAY] + rest;
    assert Follow(tail) && tail[1..] == rest;
    assert ReadValue(text + tail) == Success(v, tail);
  }

  lemma ItemThenMore(text: Bytes, v: Json, more: Bytes, vs: seq<Json>, rest: Bytes)
    requires Readable(text, v) && ReadItems(more) == Success(vs, rest)
    ensures ReadItems(text + ([COMMA] + more)) == Success([v] + vs, rest)
  {
    var tail := [COMMA] + more;
    assert Follow(tail) && tail[1..] == more;
    assert ReadValue(text + tail) == Success(v, tail);
  }

  /** A list of readable texts reads as the list of their values. */
  lemma {:induction false} ItemsReadBack(texts: seq<Bytes>, vs: seq<Json>, rest: Bytes)
    requires texts != [] && |vs| == |texts| && forall i :: 0 <= i < |texts| ==> Readable(texts[i], vs[i])
    ensures ReadItems(ListText(texts, CLOSE_ARRAY, rest)) == Success(vs, rest)
    decreases |texts|
  {
    var text, more := texts[0], texts[1..];
    assert Readable(text, vs[0]);
    assert texts == [text] + more && vs == [vs[0]] + vs[1..];
    if more == [] {
      assert texts == [text] && vs == [vs[0]];
      ListTextOne(text, CLOSE_ARRAY, rest);
      ItemThenClose(text, vs[0], rest);
    } else {
      ListTextCons(text, more, CLOSE_ARRAY, rest);
      ItemsReadBack(more, vs[1..], rest);
      ItemThenMore(text, vs[0], ListText(more, CLOSE_ARRAY, rest), vs[1..], rest);
    }
  }

  lemma MemberThenClose(text: Bytes, m: Member, rest: Bytes)
    requires ReadableMember(text, m)
    ensures ReadMembers(text + ([CLOSE_OBJECT] + rest)) == Success([m], rest)
  {
    var tail := [CLOSE_OBJECT] + rest;
    assert Follow(tail) && tail[1..] == rest;
    assert ReadMember(text + tail) == Success(m, tail);
  }

  lemma MemberThenMore(text: Bytes, m: Member, more: Bytes, ms: seq<Member>, rest: Bytes)
    requires ReadableMember(text, m) && ReadMembers(more) == Success(ms, rest)
    ensures ReadMembers(text + ([COMMA] + more)) == Success([m] + ms, rest)
  {
    var tail := [COMMA] + more;
    assert Follow(tail) && tail[1..] == more;
    assert ReadMember(text + tail) == Success(m, tail);
  }

  lemma {:induction false} MembersReadBack(texts: seq<Bytes>, ms: seq<Member>, rest: Bytes)
    requires texts != [] && |ms| == |texts| && forall i :: 0 <= i < |texts| ==> ReadableMember(texts[i], ms[i])
    ensures ReadMembers(ListText(texts, CLOSE_OBJECT, rest)) == Success(ms, rest)
    decreases |texts|
  {
    var text, more := texts[0], texts[1..];
    assert ReadableMember(text, ms[0]);
    assert texts == [text] + more && ms == [ms[0]] + ms[1..];
    if more == [] {
      assert texts == [text] && ms == [ms[0]];
      ListTextOne(text, CLOSE_OBJECT, rest);
      MemberThenClose(text, ms[0], rest);
    } else {
      ListTextCons(text, more, CLOSE_OBJECT, rest);
      MembersReadBack(more, ms[1..], rest);
      MemberThenMore(text, ms[0], ListText(more, CLOSE_OBJECT, rest), ms[1..], rest);
    }
  }

  /** A member reads back when its value does. */
  lemma MemberReadsBack(m: Member, v: Json)
    requires Readable(Text(m.value), v)
    ensures ReadableMember(EntryText(ToEntry(m)), Member(m.key, v))
  {
    forall rest | Follow(rest) ensures ReadMember(EntryText(ToEntry(m)) + rest) == Success(Member(m.key, v), rest) {
      var after := Text(m.value) + rest;
      var tail := [COLON] + after;
      MemberParts(m, rest);
      QuotedMemberStep(m.key, tail);
      assert tail[1..] == after;
    }
  }

  /** The member's text is its quoted key, a colon, and its value's text. */
  lemma MemberParts(m: Member, rest: Bytes)
    ensures EntryText(ToEntry(m)) + rest == Quote(m.key) + ([COLON] + (Text(m.value) + rest))
  {
  }

  lemma QuotedMemberStep(key: Bytes, tail: Bytes)
    requires tail != [] && tail[0] == COLON
    ensures ReadMember(Quote(key) + tail) ==
            match ReadValue(tail[1..])
            case Failure => Failure
            case Success(v, rest) => Success(Member(key, v), rest)
  {
    QuoteReadsBack(key, tail);
  }

  /** Reading the text of an acceptable value gives the value, members in key order, and leaves the rest. */
  lemma {:induction false} ValueReadsBack(v: Json, rest: Bytes)
    requires Acceptable(v) && Follow(rest)
    ensures ReadValue(Text(v) + rest) == Success(Canon(v), rest)
    decreases v, 1
  {
    TextStart(v);
    match v {
      case Null => assert (NULL_TEXT + rest)[|NULL_TEXT|..] == rest;
      case Bool(b) =>
        var t := if b then TRUE_TEXT else FALSE_TEXT;
        assert (t + rest)[|t|..] == rest;
      case Int(n) =>
        PrintedReadsBack(n, rest);
        assert (Print(n) + rest)[|Print(n)|..] == rest;
      case Str(s) => QuoteReadsBack(s, rest);
      case Arr(items) => ArrayReadsBack(v, rest);
      case Obj(members) => ObjectReadsBack(v, rest);
      case _ =>
    }
  }

  lemma {:induction false} ArrayReadsBack(v: Json, rest: Bytes)
    requires v.Arr? && Acceptable(v) && Follow(rest)
    ensures ReadValue(Text(v) + rest) == Success(Canon(v), rest)
    decreases v, 0
  {
    var texts, vs := Map(Text, v.items), Map(Canon, v.items);
    var body := ListText(texts, CLOSE_ARRAY, rest);
    ArrayText(v.items);
    CanonArray(v.items);
    assert Text(v) + rest == [OPEN_ARRAY] + body;
    ListTextStart(texts, CLOSE_ARRAY, rest);
    if texts != [] {
      forall i, tail | 0 <= i < |texts| && Follow(tail) ensures ReadValue(texts[i] + tail) == Success(vs[i], tail) {
        ValueReadsBack(v.items[i], tail);
      }
      ItemsReadBack(texts, vs, rest);
      TextStart(v.items[0]);
    }
    ReadArrayStep(body);
  }

  lemma {:induction false} ObjectReadsBack(v: Json, rest: Bytes)
    requires v.Obj? && Acceptable(v) && Follow(rest)
    ensures ReadValue(Text(v) + rest) == Success(Canon(v), rest)
    decreases v, 0
  {
    var sorted := StableSort(ByMemberKey(), v.members);
    var texts, ms := MemberTexts(sorted), Map(CanonMember, sorted);
    ObjectBody(v.members, rest);
    CanonObject(v.members);
    SortedMembers(v.members);
    ListTextStart(texts, CLOSE_OBJECT, rest);
    if sorted != [] {
      forall j | 0 <= j < |sorted| ensures ReadableMember(texts[j], ms[j]) {
        var i :| 0 <= i < |v.members| && v.members[i] == sorted[j];
        forall tail | Follow(tail)
          ensures ReadValue(Text(v.members[i].value) + tail) == Success(Canon(v.members[i].value), tail)
        {
          ValueReadsBack(v.members[i].value, tail);
        }
        MemberReadsBack(sorted[j], Canon(sorted[j].value));
      }
      MembersReadBack(texts, ms, rest);
      assert texts[0][0] == QUOTE;
    }
    ReadObjectStep(ListText(texts, CLOSE_OBJECT, rest));
  }
}
