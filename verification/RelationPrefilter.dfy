/** Searching stored text for the quoted member name before parsing it never loses a relation. */
module RelationPrefilter {
  import opened Prelude
  import opened SortedLists
  import opened Substrings
  import opened CanonicalJson
  import opened CanonicalReader
  import opened CanonicalEquivalence
  import opened EventRows

  lemma OccursInside(pattern: Bytes, before: Bytes, text: Bytes, after: Bytes)
    requires Occurs(pattern, text)
    ensures Occurs(pattern, before + text + after)
  {
    var i :| 0 <= i <= |text| && OccursAt(pattern, text, i);
    var whole := before + text + after;
    var j := |before| + i;
    assert whole[j..j + |pattern|] == text[i..i + |pattern|];
    assert OccursAt(pattern, whole, j);
  }

  lemma OccursInItself(text: Bytes)
    ensures Occurs(text, text)
  {
    assert OccursAt(text, text, 0);
  }

  /** What occurs in one of the joined texts occurs in the joined text. */
  lemma {:induction false} OccursInJoin(pattern: Bytes, texts: seq<Bytes>, i: nat)
    requires i < |texts| && Occurs(pattern, texts[i])
    ensures Occurs(pattern, Join(texts))
  {
    if |texts| > 1 {
      var rest := Join(texts[1..]);
      if i == 0 {
        assert [] + texts[0] + ([COMMA] + rest) == Join(texts);
        OccursInside(pattern, [], texts[0], [COMMA] + rest);
      } else {
        OccursInJoin(pattern, texts[1..], i - 1);
        assert texts[0] + [COMMA] + rest + [] == Join(texts);
        OccursInside(pattern, texts[0] + [COMMA], rest, []);
      }
    }
  }

  lemma OccursInEntry(pattern: Bytes, e: Entry)
    requires Occurs(pattern, Quote(e.key)) || Occurs(pattern, e.text)
    ensures Occurs(pattern, EntryText(e))
  {
    if Occurs(pattern, Quote(e.key)) {
      assert [] + Quote(e.key) + ([COLON] + e.text) == EntryText(e);
      OccursInside(pattern, [], Quote(e.key), [COLON] + e.text);
    } else {
      assert Quote(e.key) + [COLON] + e.text + [] == EntryText(e);
      OccursInside(pattern, Quote(e.key) + [COLON], e.text, []);
    }
  }

  /** What occurs in a member's quoted name or in its value's text occurs in the object's text. */
  lemma OccursInObject(pattern: Bytes, members: seq<Member>, m: Member)
    requires m in members && (Occurs(pattern, Quote(m.key)) || Occurs(pattern, Text(m.value)))
    ensures Occurs(pattern, Text(Obj(members)))
  {
    var entries := Map(ToEntry, members);
    var sorted := StableSort(ByKey(), entries);
    var i :| 0 <= i < |members| && members[i] == m;
    assert entries[i] == ToEntry(m);
    StableSortElements(ByKey(), entries);
    assert ToEntry(m) in sorted;
    var j :| 0 <= j < |sorted| && sorted[j] == ToEntry(m);
    OccursInEntry(pattern, sorted[j]);
    var texts := Map(EntryText, sorted);
    OccursInJoin(pattern, texts, j);
    OccursInside(pattern, [OPEN_OBJECT], Join(texts), [CLOSE_OBJECT]);
    ObjText(members);
  }

  lemma {:induction false} NamedIsMember(members: seq<Member>, key: Bytes)
    requires MemberNamed(members, key).Some?
    ensures Member(key, MemberNamed(members, key).value) in members
  {
    if members[0].key != key {
      NamedIsMember(members[1..], key);
    } else {
      assert members[0] == Member(key, members[0].value);
    }
  }

  /** The text of a value that declares a relation holds the quoted name the filter looks for. */
  lemma RelationIsQuoted(w: Json)
    requires DeclaredRelation(Some(w)).Some?
    ensures Occurs(Quote(M_RELATES_TO), Text(w))
  {
    var content := MemberNamed(w.members, CONTENT).value;
    NamedIsMember(w.members, CONTENT);
    NamedIsMember(content.members, M_RELATES_TO);
    OccursInItself(Quote(M_RELATES_TO));
    var relates := Member(M_RELATES_TO, MemberNamed(content.members, M_RELATES_TO).value);
    OccursInObject(Quote(M_RELATES_TO), content.members, relates);
    OccursInObject(Quote(M_RELATES_TO), w.members, Member(CONTENT, content));
  }

  /**
   On stored canonical text, with any parser that delivers only values having the text it was given, the
   filtered lookup finds exactly the relation that parsing every event would.
   */
  lemma PrefilterLosesNothing(parse: Bytes -> Option<Json>, v: Json)
    requires parse(Text(v)).Some? ==> Text(parse(Text(v)).value) == Text(v)
    ensures RelationOf(parse, Text(v)) == DeclaredRelation(parse(Text(v)))
  {
    var w := parse(Text(v));
    if DeclaredRelation(w).Some? {
      RelationIsQuoted(w.value);
    }
  }

  // ---------------------------------------------------------------- equivalent events declare the same relation

  lemma TailUnique(ms: seq<Member>)
    requires ms != [] && !HasDuplicateKeys(ms)
    ensures !HasDuplicateKeys(ms[1..]) && forall i :: 1 <= i < |ms| ==> ms[i].key != ms[0].key
  {
    assert forall i :: 0 <= i < |ms| - 1 ==> ms[1..][i] == ms[i + 1];
  }

  lemma {:induction false} NamedIs(ms: seq<Member>, i: nat)
    requires i < |ms| && !HasDuplicateKeys(ms)
    ensures MemberNamed(ms, ms[i].key) == Some(ms[i].value)
  {
    if i > 0 {
      TailUnique(ms);
      NamedIs(ms[1..], i - 1);
    }
  }

  lemma {:induction false} NamedFound(ms: seq<Member>, key: Bytes)
    ensures MemberNamed(ms, key).Some? ==> key in Keys(ms)
    ensures key !in Keys(ms) ==> MemberNamed(ms, key).None?
  {
    if MemberNamed(ms, key).Some? {
      NamedIsMember(ms, key);
      var i :| 0 <= i < |ms| && ms[i] == Member(key, MemberNamed(ms, key).value);
      assert ms[i].key == key;
    }
  }

  /** Equivalent objects hold equivalent values under each name. */
  lemma NamedEquivalent(v: Json, w: Json, key: Bytes)
    requires v.Obj? && Equivalent(v, w) && !HasDuplicateKeys(v.members) && !HasDuplicateKeys(w.members)
    ensures var a, b := MemberNamed(v.members, key), MemberNamed(w.members, key);
            a.Some? == b.Some? && (a.Some? ==> Equivalent(a.value, b.value))
  {
    NamedFound(v.members, key);
    NamedFound(w.members, key);
    if key in Keys(v.members) {
      var i :| 0 <= i < |v.members| && v.members[i].key == key;
      var j :| 0 <= j < |w.members| && w.members[j].key == key;
      NamedIs(v.members, i);
      NamedIs(w.members, j);
    }
  }

  /** Acceptable and equivalent, when there is a value at all. */
  ghost predicate Alike(a: Option<Json>, b: Option<Json>) {
    a.Some? == b.Some? && (a.Some? ==> Acceptable(a.value) && Acceptable(b.value) && Equivalent(a.value, b.value))
  }

  lemma MembersAlike(a: Option<Json>, b: Option<Json>, key: Bytes)
    requires Alike(a, b)
    ensures Alike(ObjectMember(a, key), ObjectMember(b, key)) && StringMember(a, key) == StringMember(b, key)
  {
    if a.Some? && a.value.Obj? {
      var v, w := a.value, b.value;
      NamedEquivalent(v, w, key);
      var m, n := MemberNamed(v.members, key), MemberNamed(w.members, key);
      if m.Some? {
        NamedAcceptable(v, key);
        NamedAcceptable(w, key);
      }
    }
  }

  lemma NamedAcceptable(v: Json, key: Bytes)
    requires v.Obj? && Acceptable(v) && MemberNamed(v.members, key).Some?
    ensures Acceptable(MemberNamed(v.members, key).value)
  {
    NamedIsMember(v.members, key);
    var i :| 0 <= i < |v.members| && v.members[i] == Member(key, MemberNamed(v.members, key).value);
  }

  lemma AlikeSameRelation(a: Option<Json>, b: Option<Json>)
    requires Alike(a, b)
    ensures DeclaredRelation(a) == DeclaredRelation(b)
  {
    MembersAlike(a, b, CONTENT);
    var c, d := ObjectMember(a, CONTENT), ObjectMember(b, CONTENT);
    MembersAlike(c, d, M_RELATES_TO);
    var e, f := ObjectMember(c, M_RELATES_TO), ObjectMember(d, M_RELATES_TO);
    MembersAlike(e, f, EVENT_ID);
    MembersAlike(e, f, REL_TYPE);
  }

  // ---------------------------------------------------------------- such a parser exists

  /** Reads a whole text with the reference reader. */
  function ReferenceParse(text: Bytes): Option<Json> {
    match ReadValue(text)
    case Success(v, rest) => if rest == [] then Some(v) else None
    case Failure => None
  }

  lemma ReferenceParseReads(v: Json)
    requires Acceptable(v)
    ensures ReferenceParse(Text(v)) == Some(Canon(v))
    ensures Acceptable(Canon(v)) && Equivalent(v, Canon(v)) && Text(Canon(v)) == Text(v)
  {
    ValueReadsBack(v, []);
    assert Text(v) + [] == Text(v);
    CanonEquivalent(v);
    EquivalentAcceptable(v, Canon(v));
    EquivalentSameText(v, Canon(v));
  }

  /** For every event the strict serializer accepts, the filtered lookup in its text finds the event's own relation. */
  lemma StoredRelationFound(v: Json)
    requires Serialize(v).Ok?
    ensures RelationOf(ReferenceParse, Serialize(v).output) == DeclaredRelation(Some(v))
  {
    SerializeIsText(v);
    ReferenceParseReads(v);
    PrefilterLosesNothing(ReferenceParse, v);
    AlikeSameRelation(Some(v), Some(Canon(v)));
  }
}
