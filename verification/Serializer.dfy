/** The serializer as it runs: buffers that grow, a set of seen keys, and a sort of serialized members. */
module Serializer {
  import opened Prelude
  import opened SortedLists
  import opened Decimal
  import opened CanonicalJson
  import Utf8

  lemma {:induction false} EscapeAppend(s: Bytes, b: byte)
    ensures Escape(s + [b]) == Escape(s) + EscapeByte(b)
  {
    if s == [] {
      assert Escape([b]) == EscapeByte(b) + Escape([]);
    } else {
      assert (s + [b])[1..] == s[1..] + [b];
      EscapeAppend(s[1..], b);
    }
  }

  lemma EscapePrefix(s: Bytes, i: nat)
    requires i < |s|
    ensures Escape(s[..i + 1]) == Escape(s[..i]) + EscapeByte(s[i])
  {
    EscapeAppend(s[..i], s[i]);
    assert s[..i + 1] == s[..i] + [s[i]];
  }

  lemma JoinOne(text: Bytes)
    ensures Join([text]) == text
  {
  }

  lemma Reassociate(a: Bytes, b: Bytes, c: Bytes, d: Bytes, e: Bytes)
    ensures a + b + (c + d + e) == a + b + c + d + e
  {
  }

  lemma {:induction false} JoinAppend(texts: seq<Bytes>, text: Bytes)
    ensures Join(texts + [text]) == if texts == [] then text else Join(texts) + [COMMA] + text
  {
    JoinOne(text);
    if texts == [] {
      assert texts + [text] == [text];
    } else {
      var head, tail := texts[0], texts[1..];
      assert texts == [head] + tail && texts + [text] == [head] + (tail + [text]);
      JoinCons(head, tail + [text]);
      JoinAppend(tail, text);
      if tail == [] {
        JoinOne(head);
      } else {
        JoinCons(head, tail);
        Reassociate(head, [COMMA], Join(tail), [COMMA], text);
      }
    }
  }

  lemma JoinPrefix(texts: seq<Bytes>, i: nat)
    requires i < |texts|
    ensures Join(texts[..i + 1]) == (if i == 0 then [] else Join(texts[..i]) + [COMMA]) + texts[i]
  {
    JoinAppend(texts[..i], texts[i]);
    assert texts[..i + 1] == texts[..i] + [texts[i]];
  }

  lemma Appended(a: Bytes, b: Bytes, c: Bytes)
    ensures a + b + c == a + (b + c)
  {
  }

  lemma Closed(output: Bytes, escaped: Bytes)
    ensures output + [QUOTE] + escaped + [QUOTE] == output + ([QUOTE] + escaped + [QUOTE])
  {
  }

  method AppendEscapedString(output: Bytes, value: Bytes) returns (r: Bytes)
    ensures r == output + Quote(value)
  {
    var start := output + [QUOTE];
    r := start;
    var i := 0;
    ghost var escaped: Bytes := [];
    while i < |value|
      invariant 0 <= i <= |value|
      invariant escaped == Escape(value[..i]) && r == start + escaped
    {
      EscapePrefix(value, i);
      Appended(start, escaped, EscapeByte(value[i]));
      escaped := escaped + EscapeByte(value[i]);
      r := r + EscapeByte(value[i]);
      i := i + 1;
    }
    assert value[..i] == value;
    Closed(output, escaped);
    r := r + [QUOTE];
  }

  method ObjectHasDuplicateKeys(members: seq<Member>) returns (found: bool)
    ensures found <==> HasDuplicateKeys(members)
  {
    var seen: set<Bytes> := {};
    var i := 0;
    while i < |members|
      invariant 0 <= i <= |members|
      invariant forall k :: k in seen <==> exists j :: 0 <= j < i && members[j].key == k
      invariant forall j, l :: 0 <= j < l < i ==> members[j].key != members[l].key
    {
      if members[i].key in seen {
        return true;
      }
      seen := seen + {members[i].key};
      i := i + 1;
    }
    return false;
  }

  /** An error among the first items is the error of the whole list. */
  lemma {:induction false} FailedItems(front: seq<Json>, after: seq<Json>)
    requires SerializeItems(front).Failed?
    ensures SerializeItems(front + after) == SerializeItems(front)
  {
    if after == [] {
      assert front + after == front;
    } else {
      var init, last := after[..|after| - 1], after[|after| - 1];
      FailedItems(front, init);
      ItemsAppend(front + init, last);
      assert front + after == front + init + [last];
    }
  }

  lemma ItemsFail(before: seq<Json>, v: Json, after: seq<Json>, e: Error)
    requires SerializeItems(before).Done? && Serialize(v) == Err(e)
    ensures SerializeItems(before + [v] + after) == Failed(e)
  {
    ItemsAppend(before, v);
    FailedItems(before + [v], after);
  }

  /** The array text written for these items, still open. */
  ghost predicate OpenArray(items: seq<Json>, output: Bytes, first: bool) {
    && SerializeItems(items).Done? && (first <==> items == [])
    && output == [OPEN_ARRAY] + Join(SerializeItems(items).pieces)
  }

  lemma WithSeparator(open: Bytes, joined: Bytes, first: bool, text: Bytes)
    requires first ==> joined == []
    ensures open + joined + (if first then [] else [COMMA]) + text
         == open + ((if first then [] else joined + [COMMA]) + text)
  {
  }

  lemma ItemTexts(items: seq<Json>)
    requires SerializeItems(items).Done?
    ensures SerializeItems(items).pieces == [] <==> items == []
  {
  }

  lemma OpenArrayGrows(before: seq<Json>, v: Json, output: Bytes, first: bool, text: Bytes)
    requires OpenArray(before, output, first) && Serialize(v) == Ok(text)
    ensures OpenArray(before + [v], output + (if first then [] else [COMMA]) + text, false)
  {
    var texts := SerializeItems(before).pieces;
    ItemsAppend(before, v);
    ItemTexts(before);
    JoinAppend(texts, text);
    WithSeparator([OPEN_ARRAY], Join(texts), first, text);
  }

  /** An error among the first members is the error of the whole list. */
  lemma {:induction false} FailedMembers(front: seq<Member>, after: seq<Member>)
    requires SerializeMembers(front).Failed?
    ensures SerializeMembers(front + after) == SerializeMembers(front)
  {
    if after == [] {
      assert front + after == front;
    } else {
      var init, last := after[..|after| - 1], after[|after| - 1];
      FailedMembers(front, init);
      MembersAppend(front + init, last);
      assert front + after == front + init + [last];
    }
  }

  method AppendItem(output: Bytes, first: bool, text: Bytes) returns (r: Bytes)
    ensures r == output + (if first then [] else [COMMA]) + text
  {
    r := output;
    if !first {
      r := r + [COMMA];
    }
    r := r + text;
  }

  method SerializeArray(items: seq<Json>) returns (r: Serialized)
    ensures r == Serialize(Arr(items))
    decreases items, 0
  {
    var output := [OPEN_ARRAY];
    var first := true;
    var i := 0;
    while i < |items|
      invariant 0 <= i <= |items| && OpenArray(items[..i], output, first)
    {
      var item := SerializeValue(items[i]);
      assert items == items[..i] + [items[i]] + items[i + 1..];
      if item.Err? {
        ItemsFail(items[..i], items[i], items[i + 1..], item.error);
        return Err(item.error);
      }
      OpenArrayGrows(items[..i], items[i], output, first, item.output);
      assert items[..i + 1] == items[..i] + [items[i]];
      output := AppendItem(output, first, item.output);
      first := false;
      i := i + 1;
    }
    assert items[..i] == items;
    return Ok(output + [CLOSE_ARRAY]);
  }

  method AppendMember(output: Bytes, first: bool, entry: Entry) returns (r: Bytes)
    ensures r == output + (if first then [] else [COMMA]) + EntryText(entry)
  {
    r := output;
    if !first {
      r := r + [COMMA];
    }
    ghost var before := r;
    r := AppendEscapedString(r, entry.key);
    r := r + [COLON];
    r := r + entry.text;
    assert r == before + EntryText(entry);
  }

  /** The members in the order given, between braces not yet closed. */
  method AppendMembers(sorted: seq<Entry>) returns (output: Bytes)
    ensures output == [OPEN_OBJECT] + Join(Map(EntryText, sorted))
  {
    output := [OPEN_OBJECT];
    var first := true;
    var i := 0;
    ghost var texts := Map(EntryText, sorted);
    ghost var joined: Bytes := [];
    while i < |sorted|
      invariant 0 <= i <= |sorted|
      invariant first <==> i == 0
      invariant joined == Join(texts[..i]) && output == [OPEN_OBJECT] + joined
    {
      output := AppendMember(output, first, sorted[i]);
      WithSeparator([OPEN_OBJECT], joined, first, texts[i]);
      JoinPrefix(texts, i);
      joined := Join(texts[..i + 1]);
      first := false;
      i := i + 1;
    }
    assert texts[..i] == texts;
  }

  /** The second half of object serialization: the sorted members, written out. */
  method WriteMembers(entries: seq<Entry>) returns (output: Bytes)
    ensures output == ObjectText(entries)
  {
    var sorted := StableSort(ByKey(), entries);
    output := AppendMembers(sorted);
    output := output + [CLOSE_OBJECT];
  }

  ghost predicate MembersTo(members: seq<Member>, i: nat, entries: seq<Entry>) {
    i <= |members| && SerializeMembers(members[..i]) == Done(entries)
  }

  lemma MembersGoOn(before: seq<Member>, m: Member, entries: seq<Entry>, text: Bytes)
    requires SerializeMembers(before) == Done(entries) && SerializeMember(m) == Done([Entry(m.key, text)])
    ensures SerializeMembers(before + [m]) == Done(entries + [Entry(m.key, text)])
  {
    MembersAppend(before, m);
  }

  lemma MembersFail(before: seq<Member>, m: Member, after: seq<Member>, e: Error)
    requires SerializeMembers(before).Done? && SerializeMember(m) == Failed(e)
    ensures SerializeMembers(before + [m] + after) == Failed(e)
  {
    MembersAppend(before, m);
    FailedMembers(before + [m], after);
  }

  /** The member loop: the entries so far, or the first error. */
  method SerializeEach(members: seq<Member>) returns (r: Pieces<Entry>)
    ensures r == SerializeMembers(members)
    decreases members, 0
  {
    var entries: seq<Entry> := [];
    var i := 0;
    assert members[..0] == [];
    while i < |members|
      invariant MembersTo(members, i, entries)
    {
      var m := members[i];
      assert members == members[..i] + [m] + members[i + 1..];
      var valid := Utf8.IsValid(m.key);
      if m.value.Missing? || !valid {
        MembersFail(members[..i], m, members[i + 1..], InvalidString);
        return Failed(InvalidString);
      }
      var value := SerializeValue(m.value);
      if value.Err? {
        MembersFail(members[..i], m, members[i + 1..], value.error);
        return Failed(value.error);
      }
      MembersGoOn(members[..i], m, entries, value.output);
      assert members[..i + 1] == members[..i] + [m];
      entries := entries + [Entry(m.key, value.output)];
      i := i + 1;
    }
    assert members[..i] == members;
    return Done(entries);
  }

  method SerializeObject(members: seq<Member>) returns (r: Serialized)
    ensures r == Serialize(Obj(members))
    decreases members, 1
  {
    var duplicate := ObjectHasDuplicateKeys(members);
    if duplicate {
      return Err(DuplicateObjectKey);
    }
    var entries := SerializeEach(members);
    if entries.Failed? {
      return Err(entries.error);
    }
    var output := WriteMembers(entries.pieces);
    return Ok(output);
  }

  /** The strict entry point. */
  method SerializeValue(v: Json) returns (r: Serialized)
    ensures r == Serialize(v)
    decreases v, 1
  {
    match v {
      case Null => r := Ok(NULL_TEXT);
      case Bool(b) => r := Ok(if b then TRUE_TEXT else FALSE_TEXT);
      case Int(n) => r := Ok(Print(n));
      case Double(_) => r := Err(FloatNotAllowed);
      case Raw(_) => r := Err(FloatNotAllowed);
      case Str(s) =>
        var valid := Utf8.IsValid(s);
        if !valid {
          return Err(InvalidString);
        }
        var output := AppendEscapedString([], s);
        assert [] + Quote(s) == Quote(s);
        r := Ok(output);
      case Arr(items) => r := SerializeArray(items);
      case Obj(members) => r := SerializeObject(members);
      case Missing => r := Err(InvalidString);
    }
  }
}
