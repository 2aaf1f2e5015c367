/** The canonical text spelt out: every escape, literal and separator as the characters themselves. */
module CanonicalSpelling {
  import opened Prelude
  import opened ByteOrder
  import opened SortedLists
  import opened Decimal
  import opened CanonicalJson
  import opened CanonicalReader
  import opened CanonicalEquivalence
  import Serializer
  import Utf8

  /** The texts with a comma between neighbours. */
  function Separated(texts: seq<Bytes>): Bytes {
    if texts == [] then []
    else if |texts| == 1 then texts[0]
    else Separated(texts[..|texts| - 1]) + Ascii(",") + texts[|texts| - 1]
  }

  function Spelt(s: Bytes): Bytes {
    Ascii("\"") + Escape(s) + Ascii("\"")
  }

  function MemberSpelt(m: Member): Bytes {
    Spelt(m.key) + Ascii(":") + Text(m.value)
  }

  lemma EscapeOne(b: byte)
    ensures Escape([b]) == EscapeByte(b)
  {
    assert [b][1..] == [] && EscapeByte(b) + [] == EscapeByte(b);
  }

  lemma HexSpelt(v: nat)
    requires v < 16
    ensures HexDigit(v) == Ascii("0123456789abcdef")[v]
  {
  }

  /** The characters that have an escape of their own. */
  lemma NamedEscapes()
    ensures Escape([34]) == Ascii("\\\"") && Escape([92]) == Ascii("\\\\")
    ensures Escape([8]) == Ascii("\\b") && Escape([12]) == Ascii("\\f") && Escape([10]) == Ascii("\\n")
    ensures Escape([13]) == Ascii("\\r") && Escape([9]) == Ascii("\\t")
  {
    EscapeOne(34);
    EscapeOne(92);
    EscapeOne(8);
    EscapeOne(12);
    EscapeOne(10);
    EscapeOne(13);
    EscapeOne(9);
  }

  /** Any other control character has the long escape; every other byte stands for itself. */
  lemma OtherEscapes(b: byte)
    requires b !in [34, 92, 8, 12, 10, 13, 9]
    ensures Escape([b]) == if b < 32 then Ascii("\\u00") + [Ascii("0123456789abcdef")[b / 16], Ascii("0123456789abcdef")[b % 16]]
                           else [b]
  {
    EscapeOne(b);
    if b < 32 {
      HexSpelt(b / 16);
      HexSpelt(b % 16);
    }
  }

  /** Escaping goes byte by byte. */
  lemma {:induction false} EscapeConcat(s: Bytes, t: Bytes)
    ensures Escape(s + t) == Escape(s) + Escape(t)
  {
    if s == [] {
      assert s + t == t;
    } else {
      EscapeConcat(s[1..], t);
      EscapeMoves(s[0], s[1..], t);
      assert s == [s[0]] + s[1..];
    }
  }

  lemma EscapeMoves(b: byte, rest: Bytes, t: Bytes)
    requires Escape(rest + t) == Escape(rest) + Escape(t)
    ensures Escape([b] + rest + t) == Escape([b] + rest) + Escape(t)
  {
    assert [b] + rest + t == [b] + (rest + t);
    EscapeCons(b, rest, Escape(t));
    EscapeCons(b, rest + t, []);
    assert Escape([b] + (rest + t)) + [] == Escape([b] + (rest + t)) && Escape(rest + t) + [] == Escape(rest + t);
  }

  /** The text of a value that is neither array nor object. */
  lemma ScalarSpelt(v: Json)
    requires Serialize(v).Ok? && !v.Arr? && !v.Obj?
    ensures v == Null ==> Serialize(v).output == Ascii("null")
    ensures v == Bool(true) ==> Serialize(v).output == Ascii("true")
    ensures v == Bool(false) ==> Serialize(v).output == Ascii("false")
    ensures v.Int? ==> Serialize(v).output == Print(v.n)
    ensures v.Str? ==> Serialize(v).output == Ascii("\"") + Escape(v.s) + Ascii("\"")
  {
    LiteralsSpelt();
  }

  lemma LiteralsSpelt()
    ensures NULL_TEXT == Ascii("null") && TRUE_TEXT == Ascii("true") && FALSE_TEXT == Ascii("false")
    ensures [QUOTE] == Ascii("\"") && [COMMA] == Ascii(",") && [COLON] == Ascii(":")
    ensures [OPEN_ARRAY] == Ascii("[") && [CLOSE_ARRAY] == Ascii("]")
    ensures [OPEN_OBJECT] == Ascii("{") && [CLOSE_OBJECT] == Ascii("}")
  {
  }

  lemma {:induction false} JoinIsSeparated(texts: seq<Bytes>)
    ensures Join(texts) == Separated(texts)
  {
    if |texts| > 1 {
      var init, last := texts[..|texts| - 1], texts[|texts| - 1];
      JoinIsSeparated(init);
      Serializer.JoinAppend(init, last);
      assert texts == init + [last];
      LiteralsSpelt();
    }
  }

  /** An array is its items' texts with commas between brackets. */
  lemma ArraySpelt(items: seq<Json>)
    requires Serialize(Arr(items)).Ok?
    ensures Serialize(Arr(items)).output == Ascii("[") + Separated(Map(Text, items)) + Ascii("]")
  {
    SerializeIsText(Arr(items));
    ArrayText(items);
    JoinIsSeparated(Map(Text, items));
    LiteralsSpelt();
  }

  /** Both keys are UTF-8 and the first comes before the second by code point. */
  ghost predicate KeyBefore(a: Member, b: Member) {
    Utf8.Valid(a.key) && Utf8.Valid(b.key) && exists k: nat :: FirstDifference(Utf8.Decode(a.key), Utf8.Decode(b.key), k)
  }

  /** `sorted` holds the same members with their keys strictly ascending by code point. */
  ghost predicate InKeyOrder(members: seq<Member>, sorted: seq<Member>) {
    multiset(sorted) == multiset(members) && forall i, j :: 0 <= i < j < |sorted| ==> KeyBefore(sorted[i], sorted[j])
  }

  lemma EntrySpelt(m: Member)
    ensures EntryText(ToEntry(m)) == MemberSpelt(m)
  {
    LiteralsSpelt();
  }

  lemma SortedInKeyOrder(members: seq<Member>)
    requires Serialize(Obj(members)).Ok?
    ensures InKeyOrder(members, StableSort(ByMemberKey(), members))
  {
    var sorted := StableSort(ByMemberKey(), members);
    StableSortElements(ByMemberKey(), members);
    forall i, j | 0 <= i < j < |sorted| ensures KeyBefore(sorted[i], sorted[j]) {
      KeysInCodePointOrder(members, i, j);
    }
  }

  lemma EntriesSpelt(ms: seq<Member>)
    ensures Map(EntryText, Map(ToEntry, ms)) == Map(MemberSpelt, ms)
  {
    forall i | 0 <= i < |ms| ensures Map(EntryText, Map(ToEntry, ms))[i] == MemberSpelt(ms[i]) {
      EntrySpelt(ms[i]);
    }
  }

  /** An object is its members in key order, each a quoted key, a colon and the value's text, with commas between braces. */
  lemma ObjectSpelt(members: seq<Member>) returns (sorted: seq<Member>)
    requires Serialize(Obj(members)).Ok?
    ensures InKeyOrder(members, sorted)
    ensures Serialize(Obj(members)).output == Ascii("{") + Separated(Map(MemberSpelt, sorted)) + Ascii("}")
  {
    sorted := StableSort(ByMemberKey(), members);
    SortedInKeyOrder(members);
    SerializeIsText(Obj(members));
    SortedObjText(members);
    EntriesSpelt(sorted);
    JoinIsSeparated(Map(MemberSpelt, sorted));
    LiteralsSpelt();
  }
}
