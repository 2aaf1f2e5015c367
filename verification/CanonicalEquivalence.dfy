/**
 Canonical text is a normal form: two acceptable values have the same text exactly when they are
 equal up to the order of object members at every level, and keys come out in code point order.
 */
module CanonicalEquivalence {
  import opened Prelude
  import opened ByteOrder
  import opened SortedLists
  import opened CanonicalJson
  import opened CanonicalReader
  import Utf8

  function Keys(members: seq<Member>): set<Bytes> {
    set i | 0 <= i < |members| :: members[i].key
  }

  /**
   Equal up to the order of object members, at every level: objects have the same keys, as often,
   and equivalent values under each key.
   */
  ghost predicate Equivalent(v: Json, w: Json)
    decreases v
  {
    match v
    case Arr(vs) => w.Arr? && |vs| == |w.items| && forall i :: 0 <= i < |vs| ==> Equivalent(vs[i], w.items[i])
    case Obj(ms) =>
      && w.Obj?
      && |ms| == |w.members| && Keys(ms) == Keys(w.members)
      && forall i, j :: 0 <= i < |ms| && 0 <= j < |w.members| && ms[i].key == w.members[j].key ==>
                          Equivalent(ms[i].value, w.members[j].value)
    case _ => v == w
  }

  lemma KeysOrdered()
    ensures StrictWeakOrder(ByKey()) && StrictWeakOrder(ByMemberKey())
  {
    forall a: Bytes, b: Bytes
      ensures LexLess(a, b) ==> !LexLess(b, a)
    {
      if LexLess(a, b) { LexAsymmetric(a, b); }
    }
    forall a: Bytes, b: Bytes, c: Bytes
      ensures LexLess(a, c) ==> LexLess(a, b) || LexLess(b, c)
    {
      LexTotal(a, b);
      if LexLess(a, c) && LexLess(b, a) { LexTransitive(b, a, c); }
    }
  }

  // ---------------------------------------------------------------- sorted entries

  /** An entry or member list in which a key occurs once. */
  ghost predicate UniqueKeys(es: seq<Entry>) {
    forall i, j :: 0 <= i < j < |es| ==> es[i].key != es[j].key
  }

  lemma SortedEntries(es: seq<Entry>)
    requires UniqueKeys(es)
    ensures var r := StableSort(ByKey(), es);
            && (forall i, j :: 0 <= i < j < |r| ==> LexLess(r[i].key, r[j].key))
            && (forall e :: e in r <==> e in es)
  {
    var r := StableSort(ByKey(), es);
    KeysOrdered();
    StableSortSorted(ByKey(), es);
    StableSortElements(ByKey(), es);
    NoDupIsMultiplicityOne(es);
    NoDupIsMultiplicityOne(r);
    forall i, j | 0 <= i < j < |r| ensures LexLess(r[i].key, r[j].key) {
      assert r[i] != r[j] && r[i] in multiset(r) && r[j] in multiset(r);
      assert r[i] in es && r[j] in es;
      LexTotal(r[i].key, r[j].key);
    }
    forall e ensures e in r <==> e in es {
      assert e in multiset(r) <==> e in multiset(es);
    }
  }

  /** Entries with unique keys sort to the same list whatever order they come in. */
  lemma SortDetermined(es: seq<Entry>, fs: seq<Entry>)
    requires UniqueKeys(es) && UniqueKeys(fs)
    requires forall e :: e in es <==> e in fs
    ensures StableSort(ByKey(), es) == StableSort(ByKey(), fs)
  {
    KeysOrdered();
    SortedEntries(es);
    SortedEntries(fs);
    var r, s := StableSort(ByKey(), es), StableSort(ByKey(), fs);
    forall e ensures e in r <==> e in s {
      assert e in r <==> e in es;
      assert e in s <==> e in fs;
    }
    assert forall i, j :: 0 <= i < j < |r| ==> ByKey()(r[i], r[j]);
    assert forall i, j :: 0 <= i < j < |s| ==> ByKey()(s[i], s[j]);
    AscendingDetermined(ByKey(), r, s);
  }

  // ---------------------------------------------------------------- equivalent values have one text

  lemma {:induction false} EquivalentSameText(v: Json, w: Json)
    requires Acceptable(v) && Acceptable(w) && Equivalent(v, w)
    ensures Text(v) == Text(w)
    decreases v, 2
  {
    match v {
      case Arr(vs) =>
        var ws := w.items;
        ArrayText(vs);
        ArrayText(ws);
        forall i | 0 <= i < |vs| ensures Text(vs[i]) == Text(ws[i]) {
          EquivalentSameText(vs[i], ws[i]);
        }
        assert Map(Text, vs) == Map(Text, ws);
      case Obj(ms) => EquivalentObjects(v, w);
      case _ =>
    }
  }

  lemma {:induction false} EquivalentObjects(v: Json, w: Json)
    requires v.Obj? && Acceptable(v) && Acceptable(w) && Equivalent(v, w)
    ensures Text(v) == Text(w)
    decreases v, 1
  {
    var ms, ns := v.members, w.members;
    var es, fs := Map(ToEntry, ms), Map(ToEntry, ns);
    forall i, j | 0 <= i < |ms| && 0 <= j < |ns| && ms[i].key == ns[j].key ensures es[i] == fs[j] {
      EquivalentSameText(ms[i].value, ns[j].value);
    }
    forall i | 0 <= i < |ms| ensures es[i] in fs {
      assert ms[i].key in Keys(ns);
      var j :| 0 <= j < |ns| && ns[j].key == ms[i].key;
      assert fs[j] == es[i];
    }
    forall j | 0 <= j < |ns| ensures fs[j] in es {
      assert ns[j].key in Keys(ms);
      var i :| 0 <= i < |ms| && ms[i].key == ns[j].key;
      assert es[i] == fs[j];
    }
    SameEntriesSameText(ms, ns);
  }

  lemma SameEntriesSameText(ms: seq<Member>, ns: seq<Member>)
    requires !HasDuplicateKeys(ms) && !HasDuplicateKeys(ns)
    requires forall e :: e in Map(ToEntry, ms) <==> e in Map(ToEntry, ns)
    ensures Text(Obj(ms)) == Text(Obj(ns))
  {
    ObjText(ms);
    ObjText(ns);
    SortDetermined(Map(ToEntry, ms), Map(ToEntry, ns));
  }

  // ---------------------------------------------------------------- one text, equivalent values

  lemma MultisetIndex(s: seq<Member>, t: seq<Member>, i: nat)
    requires multiset(s) == multiset(t) && i < |s|
    ensures exists j :: 0 <= j < |t| && t[j] == s[i]
  {
    assert s[i] in multiset(t);
  }

  lemma SameCanonMembers(ms: seq<Member>, ns: seq<Member>)
    requires Canon(Obj(ms)) == Canon(Obj(ns))
    ensures |ms| == |ns| && multiset(Map(CanonMember, ms)) == multiset(Map(CanonMember, ns))
  {
    var cs, ds := Map(CanonMember, ms), Map(CanonMember, ns);
    CanonObject(ms);
    CanonObject(ns);
    StableSortMap(ByMemberKey(), ByMemberKey(), CanonMember, ms);
    StableSortMap(ByMemberKey(), ByMemberKey(), CanonMember, ns);
    StableSortElements(ByMemberKey(), cs);
    StableSortElements(ByMemberKey(), ds);
    assert |cs| == |multiset(cs)| == |multiset(ds)| == |ds|;
  }

  /** The same canonised members, in some order, under unique keys: the same keys and values. */
  lemma SameCanonByKey(ms: seq<Member>, ns: seq<Member>)
    requires !HasDuplicateKeys(ms) && !HasDuplicateKeys(ns) && Canon(Obj(ms)) == Canon(Obj(ns))
    ensures |ms| == |ns| && Keys(ms) == Keys(ns)
    ensures forall i, j :: 0 <= i < |ms| && 0 <= j < |ns| && ms[i].key == ns[j].key ==>
                             Canon(ms[i].value) == Canon(ns[j].value)
  {
    SameCanonMembers(ms, ns);
    forall i | 0 <= i < |ms| ensures ms[i].key in Keys(ns) {
      var j := CanonTwin(ms, ns, i);
    }
    forall j | 0 <= j < |ns| ensures ns[j].key in Keys(ms) {
      var i := CanonTwin(ns, ms, j);
    }
    forall i, j | 0 <= i < |ms| && 0 <= j < |ns| && ms[i].key == ns[j].key
      ensures Canon(ms[i].value) == Canon(ns[j].value)
    {
      var k := CanonTwin(ms, ns, i);
      UniqueByKey(ns, j, k);
    }
  }

  /** The member on the other side with the same key and the same canonised value. */
  lemma CanonTwin(ms: seq<Member>, ns: seq<Member>, i: nat) returns (j: nat)
    requires i < |ms| && multiset(Map(CanonMember, ms)) == multiset(Map(CanonMember, ns))
    ensures j < |ns| && ns[j].key == ms[i].key && Canon(ns[j].value) == Canon(ms[i].value)
    ensures ms[i].key in Keys(ns)
  {
    var cs, ds := Map(CanonMember, ms), Map(CanonMember, ns);
    MultisetIndex(cs, ds, i);
    var k :| 0 <= k < |ds| && ds[k] == cs[i];
    assert ns[k].key in Keys(ns);
    j := k;
  }

  lemma {:induction false} SameCanonEquivalent(v: Json, w: Json)
    requires Acceptable(v) && Acceptable(w) && Canon(v) == Canon(w)
    ensures Equivalent(v, w)
    decreases v
  {
    match v {
      case Arr(vs) =>
        assert w.Arr?;
        CanonArray(vs);
        CanonArray(w.items);
        forall i | 0 <= i < |vs| ensures Equivalent(vs[i], w.items[i]) {
          assert Map(Canon, vs)[i] == Map(Canon, w.items)[i];
          SameCanonEquivalent(vs[i], w.items[i]);
        }
      case Obj(ms) =>
        assert w.Obj?;
        SameCanonByKey(ms, w.members);
        forall i, j | 0 <= i < |ms| && 0 <= j < |w.members| && ms[i].key == w.members[j].key
          ensures Equivalent(ms[i].value, w.members[j].value)
        {
          SameCanonEquivalent(ms[i].value, w.members[j].value);
        }
      case _ =>
    }
  }

  lemma SameTextSameCanon(v: Json, w: Json)
    requires Acceptable(v) && Acceptable(w) && Text(v) == Text(w)
    ensures Canon(v) == Canon(w)
  {
    ValueReadsBack(v, []);
    ValueReadsBack(w, []);
  }

  // ---------------------------------------------------------------- equivalence and acceptance

  lemma {:induction false} EquivalentSymmetric(v: Json, w: Json)
    requires Equivalent(v, w)
    ensures Equivalent(w, v)
    decreases v
  {
    match v {
      case Arr(vs) =>
        forall i | 0 <= i < |vs| ensures Equivalent(w.items[i], vs[i]) {
          EquivalentSymmetric(vs[i], w.items[i]);
        }
      case Obj(ms) =>
        forall i, j | 0 <= i < |w.members| && 0 <= j < |ms| && w.members[i].key == ms[j].key
          ensures Equivalent(w.members[i].value, ms[j].value)
        {
          EquivalentSymmetric(ms[j].value, w.members[i].value);
        }
      case _ =>
    }
  }

  /** There are as many keys as members exactly when no key repeats. */
  lemma {:induction false} KeyCount(ms: seq<Member>)
    ensures |Keys(ms)| <= |ms|
    ensures |Keys(ms)| == |ms| <==> !HasDuplicateKeys(ms)
  {
    if ms != [] {
      var n := |ms| - 1;
      var init := ms[..n];
      KeyCount(init);
      assert forall i :: 0 <= i < n ==> init[i] == ms[i];
      assert Keys(ms) == Keys(init) + {ms[n].key};
      if ms[n].key in Keys(init) {
        var i :| 0 <= i < n && init[i].key == ms[n].key;
        assert ms[i].key == ms[n].key;
      } else {
        LastKeyNew(ms);
      }
    }
  }

  lemma LastKeyNew(ms: seq<Member>)
    requires ms != [] && ms[|ms| - 1].key !in Keys(ms[..|ms| - 1])
    ensures HasDuplicateKeys(ms) <==> HasDuplicateKeys(ms[..|ms| - 1])
  {
    var n := |ms| - 1;
    var init := ms[..n];
    assert forall i :: 0 <= i < n ==> init[i] == ms[i] && init[i].key in Keys(init);
    if HasDuplicateKeys(ms) {
      var i, j :| 0 <= i < j < |ms| && ms[i].key == ms[j].key;
      assert init[i].key == init[j].key;
    }
    if HasDuplicateKeys(init) {
      var i, j :| 0 <= i < j < n && init[i].key == init[j].key;
      assert ms[i].key == ms[j].key;
    }
  }

  /** What is equivalent to an acceptable value is acceptable. */
  lemma {:induction false} EquivalentAcceptable(v: Json, w: Json)
    requires Acceptable(v) && Equivalent(v, w)
    ensures Acceptable(w)
    decreases v
  {
    match v {
      case Arr(vs) =>
        forall i | 0 <= i < |vs| ensures Acceptable(w.items[i]) {
          EquivalentAcceptable(vs[i], w.items[i]);
        }
      case Obj(ms) =>
        KeyCount(ms);
        KeyCount(w.members);
        forall j | 0 <= j < |w.members| ensures Utf8.Valid(w.members[j].key) && Acceptable(w.members[j].value) {
          assert w.members[j].key in Keys(ms);
          var i :| 0 <= i < |ms| && ms[i].key == w.members[j].key;
          EquivalentAcceptable(ms[i].value, w.members[j].value);
        }
      case _ =>
    }
  }

  /** Equivalent values are accepted or refused together. */
  lemma EquivalentAcceptance(v: Json, w: Json)
    requires Equivalent(v, w)
    ensures Serialize(v).Ok? <==> Serialize(w).Ok?
  {
    SerializeIsText(v);
    SerializeIsText(w);
    EquivalentSymmetric(v, w);
    if Acceptable(v) {
      EquivalentAcceptable(v, w);
    }
    if Acceptable(w) {
      EquivalentAcceptable(w, v);
    }
  }

  lemma UniqueByKey(ms: seq<Member>, i: nat, j: nat)
    requires !HasDuplicateKeys(ms) && i < |ms| && j < |ms| && ms[i].key == ms[j].key
    ensures i == j
  {
  }

  /** The members of an object as the reader delivers them: sorted, each one of the object's own, canonised. */
  lemma CanonMembers(ms: seq<Member>)
    ensures var sorted := StableSort(ByMemberKey(), ms);
            && Canon(Obj(ms)) == Obj(Map(CanonMember, sorted)) && |sorted| == |ms|
            && (forall i :: 0 <= i < |sorted| ==> sorted[i] in ms) && (forall i :: 0 <= i < |ms| ==> ms[i] in sorted)
  {
    var sorted := StableSort(ByMemberKey(), ms);
    CanonObject(ms);
    SortedMembers(ms);
    StableSortElements(ByMemberKey(), ms);
    forall i | 0 <= i < |ms| ensures ms[i] in sorted {
      MultisetIndex(ms, sorted, i);
    }
  }

  /** What the reader gives back is equivalent to what was written. */
  lemma {:induction false} CanonEquivalent(v: Json)
    requires Acceptable(v)
    ensures Equivalent(v, Canon(v))
    decreases v
  {
    match v {
      case Arr(vs) =>
        CanonArray(vs);
        forall i | 0 <= i < |vs| ensures Equivalent(vs[i], Map(Canon, vs)[i]) {
          CanonEquivalent(vs[i]);
        }
      case Obj(ms) =>
        CanonMembers(ms);
        var sorted := StableSort(ByMemberKey(), ms);
        var ns := Map(CanonMember, sorted);
        forall i, j | 0 <= i < |ms| && 0 <= j < |ns| && ms[i].key == ns[j].key
          ensures Equivalent(ms[i].value, ns[j].value)
        {
          var k :| 0 <= k < |ms| && ms[k] == sorted[j];
          UniqueByKey(ms, i, k);
          CanonEquivalent(ms[i].value);
        }
        CanonKeys(ms, sorted);
      case _ =>
    }
  }

  lemma CanonKeys(ms: seq<Member>, sorted: seq<Member>)
    requires (forall i :: 0 <= i < |sorted| ==> sorted[i] in ms) && (forall i :: 0 <= i < |ms| ==> ms[i] in sorted)
    ensures Keys(ms) == Keys(Map(CanonMember, sorted))
  {
    var ns := Map(CanonMember, sorted);
    forall i | 0 <= i < |ms| ensures ms[i].key in Keys(ns) {
      var j :| 0 <= j < |sorted| && sorted[j] == ms[i];
      assert ns[j].key == ms[i].key;
    }
    forall j | 0 <= j < |ns| ensures ns[j].key in Keys(ms) {
      var i :| 0 <= i < |ms| && ms[i] == sorted[j];
      assert ms[i].key == ns[j].key;
    }
  }

  /** A value serializes as an accepted one does exactly when the two are equal up to member order. */
  lemma SameTextIffEquivalent(v: Json, w: Json)
    requires Serialize(v).Ok?
    ensures Serialize(v) == Serialize(w) <==> Equivalent(v, w)
  {
    SerializeIsText(v);
    SerializeIsText(w);
    if Equivalent(v, w) {
      EquivalentAcceptance(v, w);
      EquivalentSameText(v, w);
    }
    if Serialize(v) == Serialize(w) {
      SameTextSameCanon(v, w);
      SameCanonEquivalent(v, w);
    }
  }

  /** Sorted members with unique keys have strictly increasing keys. */
  lemma SortedKeysIncrease(members: seq<Member>, i: nat, j: nat)
    requires !HasDuplicateKeys(members) && i < j < |StableSort(ByMemberKey(), members)|
    ensures var r := StableSort(ByMemberKey(), members); LexLess(r[i].key, r[j].key)
  {
    var r := StableSort(ByMemberKey(), members);
    StableSortMap(ByMemberKey(), ByKey(), ToEntry, members);
    SortedEntries(Map(ToEntry, members));
    var es := Map(ToEntry, r);
    assert es == StableSort(ByKey(), Map(ToEntry, members));
    assert LexLess(es[i].key, es[j].key);
  }

  /** The keys of an accepted object are written in strictly increasing Unicode code point order. */
  lemma KeysInCodePointOrder(members: seq<Member>, i: nat, j: nat)
    requires Serialize(Obj(members)).Ok? && i < j < |StableSort(ByMemberKey(), members)|
    ensures var r := StableSort(ByMemberKey(), members);
            && Text(Obj(members)) == [OPEN_OBJECT] + Join(MemberTexts(r)) + [CLOSE_OBJECT]
            && Utf8.Valid(r[i].key) && Utf8.Valid(r[j].key)
            && exists k: nat :: FirstDifference(Utf8.Decode(r[i].key), Utf8.Decode(r[j].key), k)
  {
    var r := StableSort(ByMemberKey(), members);
    SerializeIsText(Obj(members));
    SortedObjText(members);
    SortedKeyValid(members, i);
    SortedKeyValid(members, j);
    SortedKeysIncrease(members, i, j);
    Utf8.ByteOrderIsCodePointOrder(r[i].key, r[j].key);
    LexIsFirstDifference(Utf8.Decode(r[i].key), Utf8.Decode(r[j].key));
  }

  lemma SortedKeyValid(members: seq<Member>, i: nat)
    requires Acceptable(Obj(members)) && i < |StableSort(ByMemberKey(), members)|
    ensures Utf8.Valid(StableSort(ByMemberKey(), members)[i].key)
  {
    SortedMembers(members);
    var r := StableSort(ByMemberKey(), members);
    var k :| 0 <= k < |members| && members[k] == r[i];
  }
}
