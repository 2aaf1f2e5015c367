/**
 The one-pass scan that finds an integer member of a stored event without parsing it. It is exact on
 the text the strict serializer writes: strings are skipped with their escapes and nesting is counted.
 */
module TopLevelInteger {
  import opened Prelude
  import opened SortedLists
  import opened Decimal
  import opened CanonicalJson
  import opened CanonicalReader

  predicate IsSpace(b: byte) {
    b == 32 || b == 9 || b == 10 || b == 13
  }

  /** Where the string that `s` continues ends: the index of its closing quote, or at least |s| if it has none. */
  function StringEnd(s: Bytes): nat
    decreases |s|
  {
    if s == [] || s[0] == QUOTE then 0
    else if s[0] == BACKSLASH then 2 + if |s| < 2 then 0 else StringEnd(s[2..])
    else 1 + StringEnd(s[1..])
  }

  function SkipSpaces(s: Bytes): (r: Bytes)
  {
    if s != [] && IsSpace(s[0]) then SkipSpaces(s[1..]) else s
  }

  function SignLength(s: Bytes): (n: nat)
    ensures n <= |s|
  {
    if s != [] && s[0] == MINUS then 1 else 0
  }

  /** Where the optional minus sign and the digits that `s` starts with end. */
  function IntegerEnd(s: Bytes): (n: nat)
    ensures n <= |s|
  {
    SignLength(s) + DigitRun(s[SignLength(s)..])
  }

  /** The integer that `s` starts with, unless it goes on as a fraction or an exponent or does not fit. */
  function LeadingInteger(s: Bytes): Option<int64> {
    var end := IntegerEnd(s);
    if end == SignLength(s) || (end < |s| && (s[end] == 46 || s[end] == 101 || s[end] == 69)) then None
    else
      match FromCharsInt64(s[..end])
      case Parsed(n, length) => if length == end then Some(n) else None
      case _ => None
  }

  /** The scan from `s` on, inside `depth` open brackets. */
  function Scan(s: Bytes, key: Bytes, depth: nat): Option<int64>
    decreases |s|
  {
    if s == [] then None
    else if s[0] == OPEN_OBJECT || s[0] == OPEN_ARRAY then Scan(s[1..], key, depth + 1)
    else if s[0] == CLOSE_OBJECT || s[0] == CLOSE_ARRAY then
      if depth == 0 then None else Scan(s[1..], key, depth - 1)
    else if s[0] != QUOTE then Scan(s[1..], key, depth)
    else
      var end := StringEnd(s[1..]);
      if end >= |s[1..]| then None
      else AfterString(s[1..][..end], s[1..][end + 1..], key, depth)
  }

  /** The scan after the string `text`, with `rest` behind its closing quote. */
  function AfterString(text: Bytes, rest: Bytes, key: Bytes, depth: nat): Option<int64>
    decreases |rest| + 1
  {
    if depth != 1 || text != key then Scan(rest, key, depth)
    else
      var after := SkipSpaces(rest);
      if after == [] || after[0] != COLON then Scan(rest, key, depth)
      else LeadingInteger(SkipSpaces(after[1..]))
  }

  // ---------------------------------------------------------------- the loop of the source

  method FindStringEnd(json: Bytes, start: nat) returns (index: nat)
    requires start <= |json|
    ensures index == start + StringEnd(json[start..])
  {
    index := start;
    while index < |json| && json[index] != QUOTE
      invariant start <= index
      invariant index <= |json| ==> start + StringEnd(json[start..]) == index + StringEnd(json[index..])
      invariant index > |json| ==> start + StringEnd(json[start..]) == index
    {
      ghost var s := json[index..];
      if |s| >= 2 { assert s[2..] == json[index + 2..]; }
      assert s[1..] == json[index + 1..];
      index := index + if json[index] == BACKSLASH then 2 else 1;
    }
  }

  method FindNonSpace(json: Bytes, start: nat) returns (after: nat)
    requires start <= |json|
    ensures start <= after <= |json| && json[after..] == SkipSpaces(json[start..])
  {
    after := start;
    while after < |json| && IsSpace(json[after])
      invariant start <= after <= |json|
      invariant SkipSpaces(json[after..]) == SkipSpaces(json[start..])
    {
      assert json[after..][1..] == json[after + 1..];
      after := after + 1;
    }
  }

  method FindIntegerEnd(json: Bytes, begin: nat) returns (digits: nat, after: nat)
    requires begin <= |json|
    ensures digits == begin + SignLength(json[begin..])
    ensures after == begin + IntegerEnd(json[begin..])
  {
    ghost var s := json[begin..];
    after := begin;
    if after < |json| && json[after] == MINUS {
      after := after + 1;
    }
    digits := after;
    while after < |json| && 48 <= json[after] <= 57
      invariant digits <= after <= |json|
      invariant forall i :: digits <= i < after ==> IsDigit(json[i])
    {
      after := after + 1;
    }
    assert s[digits - begin..] == json[digits..];
    DigitRunIs(json[digits..], after - digits);
  }

  method ReadInteger(json: Bytes, begin: nat) returns (value: Option<int64>)
    requires begin <= |json|
    ensures value == LeadingInteger(json[begin..])
  {
    var digits, after := FindIntegerEnd(json, begin);
    if after == digits || (after < |json| && (json[after] == 46 || json[after] == 101 || json[after] == 69)) {
      return None;
    }
    assert json[begin..][..after - begin] == json[begin..after];
    var parsed := FromCharsInt64(json[begin..after]);
    match parsed {
      case Parsed(n, length) => return if length == after - begin then Some(n) else None;
      case _ => return None;
    }
  }

  /** What the loop body does once it has the string that ends before `index`. */
  method CheckMember(json: Bytes, key: Bytes, depth: nat, text: Bytes, index: nat) returns (done: bool, value: Option<int64>)
    requires index <= |json|
    ensures done ==> value == AfterString(text, json[index..], key, depth)
    ensures !done ==> AfterString(text, json[index..], key, depth) == Scan(json[index..], key, depth)
  {
    done, value := false, None;
    if depth != 1 || text != key {
      return;
    }
    var after := FindNonSpace(json, index);
    if after >= |json| || json[after] != COLON {
      return;
    }
    assert json[after..][1..] == json[after + 1..];
    after := FindNonSpace(json, after + 1);
    done := true;
    value := ReadInteger(json, after);
  }

  /** The part of the loop body after an opening quote: the answer, or where to go on. */
  method PassString(json: Bytes, key: Bytes, depth: nat, start: nat) returns (done: bool, value: Option<int64>, index: nat)
    requires 0 < start <= |json| && json[start - 1] == QUOTE
    ensures done ==> value == Scan(json[start - 1..], key, depth)
    ensures !done ==> start < index <= |json| && Scan(json[start - 1..], key, depth) == Scan(json[index..], key, depth)
  {
    ghost var s := json[start - 1..];
    assert s[1..] == json[start..];
    index := FindStringEnd(json, start);
    if index >= |json| {
      return true, None, index;
    }
    var text := json[start..index];
    assert s[1..][..index - start] == text;
    assert s[1..][index - start + 1..] == json[index + 1..];
    index := index + 1;
    assert Scan(s, key, depth) == AfterString(text, json[index..], key, depth);
    done, value := CheckMember(json, key, depth, text, index);
  }

  method Find(json: Bytes, key: Bytes) returns (value: Option<int64>)
    ensures value == Scan(json, key, 0)
  {
    var depth := 0;
    var index := 0;
    while index < |json|
      invariant 0 <= index <= |json| && depth >= 0
      invariant Scan(json, key, 0) == Scan(json[index..], key, depth)
    {
      var c := json[index];
      assert json[index..][1..] == json[index + 1..];
      if c == OPEN_OBJECT || c == OPEN_ARRAY {
        depth := depth + 1;
        index := index + 1;
        continue;
      }
      if c == CLOSE_OBJECT || c == CLOSE_ARRAY {
        if depth == 0 {
          return None;
        }
        depth := depth - 1;
        index := index + 1;
        continue;
      }
      if c != QUOTE {
        index := index + 1;
        continue;
      }
      var done, found, next := PassString(json, key, depth, index + 1);
      if done {
        return found;
      }
      index := next;
    }
    return None;
  }

  // ---------------------------------------------------------------- skipping canonical text

  lemma {:induction false} EscapedEnd(x: Bytes, rest: Bytes)
    ensures StringEnd(Escape(x) + [QUOTE] + rest) == |Escape(x)|
  {
    if x == [] {
      assert Escape(x) + [QUOTE] + rest == [QUOTE] + rest;
    } else {
      var tail := Escape(x[1..]) + [QUOTE] + rest;
      var e := EscapeByte(x[0]);
      assert Escape(x) + [QUOTE] + rest == e + tail;
      EscapedEnd(x[1..], rest);
      EscapeSkipped(x[0], tail);
    }
  }

  lemma EscapeSkipped(b: byte, tail: Bytes)
    ensures StringEnd(EscapeByte(b) + tail) == |EscapeByte(b)| + StringEnd(tail)
  {
    var e := EscapeByte(b);
    var s := e + tail;
    if |e| == 1 {
      assert s[1..] == tail;
    } else if |e| == 2 {
      assert s[2..] == tail;
    } else {
      PlainSkipped([e[2], e[3], e[4], e[5]], tail);
      assert s[2..] == [e[2], e[3], e[4], e[5]] + tail;
    }
  }

  lemma {:induction false} PlainSkipped(p: Bytes, tail: Bytes)
    requires forall i :: 0 <= i < |p| ==> p[i] != QUOTE && p[i] != BACKSLASH
    ensures StringEnd(p + tail) == |p| + StringEnd(tail)
  {
    if p == [] {
      assert p + tail == tail;
    } else {
      assert (p + tail)[1..] == p[1..] + tail;
      PlainSkipped(p[1..], tail);
    }
  }

  /** Scanning over a quoted string. */
  lemma QuoteScanned(x: Bytes, rest: Bytes, key: Bytes, depth: nat)
    ensures Scan(Quote(x) + rest, key, depth) == AfterString(Escape(x), rest, key, depth)
  {
    var s := Quote(x) + rest;
    assert s[1..] == Escape(x) + [QUOTE] + rest;
    EscapedEnd(x, rest);
    assert s[1..][..|Escape(x)|] == Escape(x);
    assert s[1..][|Escape(x)| + 1..] == rest;
  }

  /** What may follow a value inside an array or object. */
  predicate Delimited(rest: Bytes) {
    rest != [] && (rest[0] == COMMA || rest[0] == CLOSE_ARRAY || rest[0] == CLOSE_OBJECT)
  }

  predicate Inert(b: byte) {
    b != QUOTE && b != OPEN_ARRAY && b != CLOSE_ARRAY && b != OPEN_OBJECT && b != CLOSE_OBJECT
  }

  lemma {:induction false} InertSkipped(p: Bytes, rest: Bytes, key: Bytes, depth: nat)
    requires forall i :: 0 <= i < |p| ==> Inert(p[i])
    ensures Scan(p + rest, key, depth) == Scan(rest, key, depth)
  {
    if p == [] {
      assert p + rest == rest;
    } else {
      assert (p + rest)[1..] == p[1..] + rest;
      InertSkipped(p[1..], rest, key, depth);
    }
  }

  lemma PrintedInert(n: int)
    ensures forall i :: 0 <= i < |Print(n)| ==> Inert(Print(n)[i])
  {
    var d := Digits(Abs(n));
    forall i | 0 <= i < |Print(n)| ensures Inert(Print(n)[i]) {
      if n < 0 && i > 0 {
        assert Print(n)[i] == d[i - 1];
      } else if n >= 0 {
        assert Print(n)[i] == d[i];
      }
    }
  }

  lemma ScalarSkipped(v: Json, rest: Bytes, key: Bytes, depth: nat)
    requires v.Null? || v.Bool? || v.Int?
    ensures Scan(Text(v) + rest, key, depth) == Scan(rest, key, depth)
  {
    if v.Int? { PrintedInert(v.n); }
    InertSkipped(Text(v), rest, key, depth);
  }

  lemma StringSkipped(x: Bytes, rest: Bytes, key: Bytes, depth: nat)
    requires Delimited(rest)
    ensures Scan(Quote(x) + rest, key, depth) == Scan(rest, key, depth)
  {
    QuoteScanned(x, rest, key, depth);
    assert SkipSpaces(rest) == rest;
  }

  lemma OpenScanned(open: byte, body: Bytes, key: Bytes, depth: nat)
    requires open == OPEN_ARRAY || open == OPEN_OBJECT
    ensures Scan([open] + body, key, depth) == Scan(body, key, depth + 1)
  {
    assert ([open] + body)[1..] == body;
  }

  lemma ClosedScanned(close: byte, rest: Bytes, key: Bytes, depth: nat)
    requires close == CLOSE_ARRAY || close == CLOSE_OBJECT
    ensures Scan([close] + rest, key, depth + 1) == Scan(rest, key, depth)
  {
    assert ([close] + rest)[1..] == rest;
  }

  /** Whatever may follow it, the text is passed over. */
  ghost predicate Skippable(text: Bytes, key: Bytes, depth: nat) {
    forall tail :: Delimited(tail) ==> Scan(text + tail, key, depth) == Scan(tail, key, depth)
  }

  lemma TextThen(text: Bytes, tail: Bytes, key: Bytes, depth: nat)
    requires Skippable(text, key, depth) && Delimited(tail)
    ensures Scan(text + tail, key, depth) == Scan(tail, key, depth)
  {
  }

  /** A list of texts that are each passed over is passed over with its closing bracket. */
  lemma {:induction false} ListSkipped(texts: seq<Bytes>, close: byte, rest: Bytes, key: Bytes, depth: nat)
    requires close == CLOSE_ARRAY || close == CLOSE_OBJECT
    requires forall i :: 0 <= i < |texts| ==> Skippable(texts[i], key, depth + 1)
    ensures Scan(ListText(texts, close, rest), key, depth + 1) == Scan(rest, key, depth)
    decreases |texts|
  {
    ClosedScanned(close, rest, key, depth);
    if texts == [] {
      ListTextStart(texts, close, rest);
    } else {
      var text, more := texts[0], texts[1..];
      assert Skippable(text, key, depth + 1) && texts == [text] + more;
      if more == [] {
        assert texts == [text];
        ListTextOne(text, close, rest);
        TextThen(text, [close] + rest, key, depth + 1);
      } else {
        var after := ListText(more, close, rest);
        ListTextCons(text, more, close, rest);
        TextThen(text, [COMMA] + after, key, depth + 1);
        InertSkipped([COMMA], after, key, depth + 1);
        ListSkipped(more, close, rest, key, depth);
      }
    }
  }

  /** A member inside a nested object is passed over: at depth 2 or more no string is taken for the key. */
  lemma MemberSkippable(m: Member, key: Bytes, depth: nat)
    requires depth >= 2 && Skippable(Text(m.value), key, depth)
    ensures Skippable(EntryText(ToEntry(m)), key, depth)
  {
    forall tail | Delimited(tail) ensures Scan(EntryText(ToEntry(m)) + tail, key, depth) == Scan(tail, key, depth) {
      var after := Text(m.value) + tail;
      MemberParts(m, tail);
      QuoteScanned(m.key, [COLON] + after, key, depth);
      InertSkipped([COLON], after, key, depth);
    }
  }

  /** Any accepted value nested in the event is passed over, whatever it contains. */
  lemma {:induction false} ValueSkipped(v: Json, rest: Bytes, key: Bytes, depth: nat)
    requires Acceptable(v) && Delimited(rest) && depth >= 1
    ensures Scan(Text(v) + rest, key, depth) == Scan(rest, key, depth)
    decreases v, 1
  {
    if v.Str? {
      StringSkipped(v.s, rest, key, depth);
    } else if v.Arr? {
      ArraySkipped(v, rest, key, depth);
    } else if v.Obj? {
      ObjectSkipped(v, rest, key, depth);
    } else {
      ScalarSkipped(v, rest, key, depth);
    }
  }

  lemma {:induction false} ArraySkipped(v: Json, rest: Bytes, key: Bytes, depth: nat)
    requires v.Arr? && Acceptable(v) && Delimited(rest) && depth >= 1
    ensures Scan(Text(v) + rest, key, depth) == Scan(rest, key, depth)
    decreases v, 0
  {
    ArrayText(v.items);
    var texts := Map(Text, v.items);
    forall i, tail | 0 <= i < |texts| && Delimited(tail)
      ensures Scan(texts[i] + tail, key, depth + 1) == Scan(tail, key, depth + 1)
    {
      ValueSkipped(v.items[i], tail, key, depth + 1);
    }
    ListSkipped(texts, CLOSE_ARRAY, rest, key, depth);
    OpenedList(OPEN_ARRAY, texts, CLOSE_ARRAY, rest, key, depth);
  }

  lemma OpenedList(open: byte, texts: seq<Bytes>, close: byte, rest: Bytes, key: Bytes, depth: nat)
    requires open == OPEN_ARRAY || open == OPEN_OBJECT
    ensures Scan([open] + Join(texts) + [close] + rest, key, depth) == Scan(ListText(texts, close, rest), key, depth + 1)
  {
    OpenScanned(open, ListText(texts, close, rest), key, depth);
    assert [open] + Join(texts) + [close] + rest == [open] + ListText(texts, close, rest);
  }

  lemma {:induction false} MemberValueSkippable(v: Json, i: nat, key: Bytes, depth: nat)
    requires v.Obj? && Acceptable(v) && i < |v.members| && depth >= 1
    ensures Skippable(Text(v.members[i].value), key, depth)
    decreases v, 0, 0
  {
    forall tail | Delimited(tail)
      ensures Scan(Text(v.members[i].value) + tail, key, depth) == Scan(tail, key, depth)
    {
      ValueSkipped(v.members[i].value, tail, key, depth);
    }
  }

  lemma {:induction false} SortedMemberSkippable(v: Json, j: nat, key: Bytes, depth: nat)
    requires v.Obj? && Acceptable(v) && depth >= 2 && j < |StableSort(ByMemberKey(), v.members)|
    ensures Skippable(EntryText(ToEntry(StableSort(ByMemberKey(), v.members)[j])), key, depth)
    decreases v, 0, 1
  {
    var sorted := StableSort(ByMemberKey(), v.members);
    SortedMembers(v.members);
    var i :| 0 <= i < |v.members| && v.members[i] == sorted[j];
    MemberValueSkippable(v, i, key, depth);
    MemberSkippable(sorted[j], key, depth);
  }

  lemma {:induction false} MembersSkipped(v: Json, rest: Bytes, key: Bytes, depth: nat)
    requires v.Obj? && Acceptable(v) && depth >= 1
    ensures var texts := MemberTexts(StableSort(ByMemberKey(), v.members));
            Scan(ListText(texts, CLOSE_OBJECT, rest), key, depth + 1) == Scan(rest, key, depth)
    decreases v, 0, 2
  {
    var texts := MemberTexts(StableSort(ByMemberKey(), v.members));
    forall j | 0 <= j < |texts| ensures Skippable(texts[j], key, depth + 1) {
      SortedMemberSkippable(v, j, key, depth + 1);
    }
    ListSkipped(texts, CLOSE_OBJECT, rest, key, depth);
  }

  lemma {:induction false} ObjectSkipped(v: Json, rest: Bytes, key: Bytes, depth: nat)
    requires v.Obj? && Acceptable(v) && Delimited(rest) && depth >= 1
    ensures Scan(Text(v) + rest, key, depth) == Scan(rest, key, depth)
    decreases v, 0, 3
  {
    MembersSkipped(v, rest, key, depth);
    ObjectBody(v.members, rest);
    OpenScanned(OPEN_OBJECT, ListText(MemberTexts(StableSort(ByMemberKey(), v.members)), CLOSE_OBJECT, rest), key, depth);
  }

  // ---------------------------------------------------------------- the top level

  /** A key whose text is its own escaped form. */
  predicate Plain(key: Bytes) {
    forall i :: 0 <= i < |key| ==> key[i] >= 32 && key[i] != QUOTE && key[i] != BACKSLASH
  }

  lemma {:induction false} PlainEscapes(key: Bytes)
    requires Plain(key)
    ensures Escape(key) == key
  {
    if key != [] {
      PlainEscapes(key[1..]);
      assert [key[0]] + key[1..] == key;
    }
  }

  /** Escaping loses nothing, so only the key itself is written as the key. */
  lemma EscapedIsKey(x: Bytes, key: Bytes)
    requires Plain(key)
    ensures Escape(x) == key <==> x == key
  {
    PlainEscapes(key);
    StringReadsBack(x, []);
    StringReadsBack(key, []);
  }

  /** The integer member `key`, if there is one: what the scan is for. */
  function IntegerMember(members: seq<Member>, key: Bytes): Option<int64> {
    if members == [] then None
    else if members[0].key == key then
      if members[0].value.Int? then Some(members[0].value.n) else None
    else IntegerMember(members[1..], key)
  }

  lemma UnsignedEnd(d: Bytes, rest: Bytes)
    requires d != [] && IsDigit(d[0]) && DigitRun(d + rest) == |d|
    ensures SignLength(d + rest) == 0 && IntegerEnd(d + rest) == |d|
  {
    assert (d + rest)[0] == d[0] && (d + rest)[0..] == d + rest;
  }

  lemma NegativeEnd(d: Bytes, rest: Bytes)
    requires DigitRun(d + rest) == |d|
    ensures SignLength([MINUS] + d + rest) == 1 && IntegerEnd([MINUS] + d + rest) == 1 + |d|
  {
    assert ([MINUS] + d + rest)[0] == MINUS && ([MINUS] + d + rest)[1..] == d + rest;
  }

  lemma PrintedEnd(n: int64, rest: Bytes)
    requires Delimited(rest)
    ensures IntegerEnd(Print(n) + rest) == |Print(n)| > SignLength(Print(n) + rest)
  {
    var d := Digits(Abs(n));
    DigitsRun(Abs(n), rest);
    if n < 0 {
      NegativeEnd(d, rest);
    } else {
      assert IsDigit(d[0]);
      UnsignedEnd(d, rest);
    }
  }

  lemma IntegerRead(n: int64, rest: Bytes)
    requires Delimited(rest)
    ensures LeadingInteger(Print(n) + rest) == Some(n)
  {
    var s := Print(n) + rest;
    PrintedEnd(n, rest);
    assert s[..|Print(n)|] == Print(n);
    assert FromCharsInt64(Print(n)) == Parsed(n, |Print(n)|) by {
      PrintedReadsBack(n, []);
      assert Print(n) + [] == Print(n);
    }
    assert s[|Print(n)|] == rest[0];
  }

  lemma ValueRead(v: Json, rest: Bytes)
    requires Acceptable(v) && Delimited(rest)
    ensures SkipSpaces(Text(v) + rest) == Text(v) + rest
    ensures LeadingInteger(Text(v) + rest) == if v.Int? then Some(v.n) else None
  {
    TextStart(v);
    var s := Text(v) + rest;
    assert s[0] == Text(v)[0];
    if v.Int? {
      IntegerRead(v.n, rest);
    } else {
      assert !IsDigit(s[0]) && s[0] != MINUS;
      assert DigitRun(s[0..]) == 0;
    }
    FirstNotSpace(v);
  }

  lemma FirstNotSpace(v: Json)
    requires Acceptable(v)
    ensures Text(v) != [] && !IsSpace(Text(v)[0])
  {
  }

  lemma OtherMemberScanned(m: Member, rest: Bytes, key: Bytes)
    requires Acceptable(m.value) && Delimited(rest) && Plain(key) && m.key != key
    ensures Scan(EntryText(ToEntry(m)) + rest, key, 1) == Scan(rest, key, 1)
  {
    var after := Text(m.value) + rest;
    MemberParts(m, rest);
    QuoteScanned(m.key, [COLON] + after, key, 1);
    EscapedIsKey(m.key, key);
    InertSkipped([COLON], after, key, 1);
    ValueSkipped(m.value, rest, key, 1);
  }

  lemma AfterKey(after: Bytes, key: Bytes)
    ensures AfterString(key, [COLON] + after, key, 1) == LeadingInteger(SkipSpaces(after))
  {
    var rest := [COLON] + after;
    assert SkipSpaces(rest) == rest;
    assert rest[1..] == after;
  }

  lemma KeyMemberScanned(m: Member, rest: Bytes, key: Bytes)
    requires Acceptable(m.value) && Delimited(rest) && Plain(key) && m.key == key
    ensures Scan(EntryText(ToEntry(m)) + rest, key, 1) == if m.value.Int? then Some(m.value.n) else None
  {
    var after := Text(m.value) + rest;
    MemberParts(m, rest);
    QuoteScanned(m.key, [COLON] + after, key, 1);
    PlainEscapes(key);
    AfterKey(after, key);
    ValueRead(m.value, rest);
  }

  lemma MemberScanned(v: Json, m: Member, rest: Bytes, key: Bytes)
    requires v.Obj? && Acceptable(v) && m in v.members && Delimited(rest) && Plain(key)
    ensures Scan(EntryText(ToEntry(m)) + rest, key, 1) ==
            if m.key != key then Scan(rest, key, 1) else if m.value.Int? then Some(m.value.n) else None
  {
    var i :| 0 <= i < |v.members| && v.members[i] == m;
    if m.key != key {
      OtherMemberScanned(m, rest, key);
    } else {
      KeyMemberScanned(m, rest, key);
    }
  }

  lemma {:induction false} MembersScanned(v: Json, ms: seq<Member>, key: Bytes)
    requires v.Obj? && Acceptable(v) && Plain(key)
    requires forall i :: 0 <= i < |ms| ==> ms[i] in v.members
    ensures Scan(ListText(MemberTexts(ms), CLOSE_OBJECT, []), key, 1) == IntegerMember(ms, key)
  {
    var texts := MemberTexts(ms);
    ClosedScanned(CLOSE_OBJECT, [], key, 0);
    if ms == [] {
      assert ListText(texts, CLOSE_OBJECT, []) == [CLOSE_OBJECT] + [];
    } else {
      ListTextStep(texts, CLOSE_OBJECT, []);
      if |ms| == 1 {
        MemberScanned(v, ms[0], [CLOSE_OBJECT] + [], key);
      } else {
        var tail := ListText(texts[1..], CLOSE_OBJECT, []);
        MemberScanned(v, ms[0], [COMMA] + tail, key);
        InertSkipped([COMMA], tail, key, 1);
        MembersScanned(v, ms[1..], key);
        assert texts[1..] == MemberTexts(ms[1..]);
      }
    }
  }

  // ---------------------------------------------------------------- order does not matter

  lemma {:induction false} IntegerMemberFound(ms: seq<Member>, key: Bytes, i: nat)
    requires i < |ms| && ms[i].key == key
    requires forall j, k :: 0 <= j < k < |ms| ==> ms[j].key != ms[k].key
    ensures IntegerMember(ms, key) == if ms[i].value.Int? then Some(ms[i].value.n) else None
  {
    if i > 0 { IntegerMemberFound(ms[1..], key, i - 1); }
  }

  lemma {:induction false} IntegerMemberAbsent(ms: seq<Member>, key: Bytes)
    requires forall i :: 0 <= i < |ms| ==> ms[i].key != key
    ensures IntegerMember(ms, key) == None
  {
    if ms != [] { IntegerMemberAbsent(ms[1..], key); }
  }

  lemma SortedUnique(members: seq<Member>)
    requires !HasDuplicateKeys(members)
    ensures forall j, k :: 0 <= j < k < |StableSort(ByMemberKey(), members)| ==>
                             StableSort(ByMemberKey(), members)[j].key != StableSort(ByMemberKey(), members)[k].key
  {
    var r := StableSort(ByMemberKey(), members);
    StableSortElements(ByMemberKey(), members);
    SortedMembers(members);
    NoDupIsMultiplicityOne(members);
    NoDupIsMultiplicityOne(r);
    forall j, k | 0 <= j < k < |r| ensures r[j].key != r[k].key {
      assert r[j] != r[k] && r[j] in members && r[k] in members;
    }
  }

  lemma SortedIntegerMember(members: seq<Member>, key: Bytes)
    requires !HasDuplicateKeys(members)
    ensures IntegerMember(StableSort(ByMemberKey(), members), key) == IntegerMember(members, key)
  {
    var r := StableSort(ByMemberKey(), members);
    SortedUnique(members);
    SortedMembers(members);
    StableSortElements(ByMemberKey(), members);
    if i :| 0 <= i < |members| && members[i].key == key {
      IntegerMemberFound(members, key, i);
      assert members[i] in multiset(r);
      var j :| 0 <= j < |r| && r[j] == members[i];
      IntegerMemberFound(r, key, j);
    } else {
      IntegerMemberAbsent(members, key);
      IntegerMemberAbsent(r, key);
    }
  }

  /**
   On the text of every object the strict serializer accepts, and for every key that needs no escape,
   the scan returns n exactly when the top-level member of that name is the integer n.
   */
  lemma ScanIsExact(members: seq<Member>, key: Bytes)
    requires Serialize(Obj(members)).Ok? && Plain(key)
    ensures Scan(Serialize(Obj(members)).output, key, 0) == IntegerMember(members, key)
  {
    var v := Obj(members);
    SerializeIsText(v);
    var sorted := StableSort(ByMemberKey(), members);
    ObjectBody(members, []);
    assert Text(v) + [] == Text(v);
    SortedMembers(members);
    OpenScanned(OPEN_OBJECT, ListText(MemberTexts(sorted), CLOSE_OBJECT, []), key, 0);
    MembersScanned(v, sorted, key);
    SortedIntegerMember(members, key);
  }

  // ---------------------------------------------------------------- text with white space

  /** Only spaces, tabs, line feeds and carriage returns. */
  predicate White(s: Bytes) {
    forall i :: 0 <= i < |s| ==> s[i] in Ascii(" \t\n\r")
  }

  lemma {:induction false} WhiteSkipped(s: Bytes, rest: Bytes)
    requires White(s) && rest != [] && rest[0] !in Ascii(" \t\n\r")
    ensures SkipSpaces(s + rest) == rest
  {
    WhiteIsSpace();
    if s == [] {
      assert s + rest == rest;
    } else {
      assert (s + rest)[0] == s[0] && (s + rest)[1..] == s[1..] + rest;
      WhiteSkipped(s[1..], rest);
    }
  }

  lemma WhiteIsSpace()
    ensures forall b: byte :: IsSpace(b) <==> b in Ascii(" \t\n\r")
  {
    assert Ascii(" \t\n\r") == [32, 9, 10, 13];
  }

  /** White space before or behind the colon does not hide the member. */
  lemma PaddedMemberFound(key: Bytes, before: Bytes, after: Bytes, n: int64, rest: Bytes)
    requires Plain(key) && White(before) && White(after) && Delimited(rest)
    ensures Scan(Ascii("{") + (Quote(key) + (before + (Ascii(":") + (after + (Print(n) + rest))))), key, 0) == Some(n)
  {
    var value := Print(n) + rest;
    var tail := before + (Ascii(":") + (after + value));
    assert Ascii("{") == [OPEN_OBJECT] && Ascii(":") == [COLON] && Ascii(" \t\n\r") == [32, 9, 10, 13];
    OpenScanned(OPEN_OBJECT, Quote(key) + tail, key, 0);
    QuoteScanned(key, tail, key, 1);
    PlainEscapes(key);
    WhiteSkipped(before, [COLON] + (after + value));
    assert ([COLON] + (after + value))[1..] == after + value;
    PrintedFirst(n);
    assert value[0] == Print(n)[0];
    WhiteSkipped(after, value);
    IntegerRead(n, rest);
  }

  lemma PrintedFirst(n: int)
    ensures Print(n) != [] && (Print(n)[0] == MINUS || IsDigit(Print(n)[0]))
  {
  }
}
