/** The bytes that are signed: an object without its top-level `signatures` and `unsigned` ("Signing JSON"). */
module Signable {
  import opened Prelude
  import opened SortedLists
  import opened CanonicalJson
  import opened CanonicalReader
  import opened CanonicalEquivalence
  import Utf8

  const SIGNATURES: Bytes := [115, 105, 103, 110, 97, 116, 117, 114, 101, 115]  // signatures
  const UNSIGNED: Bytes := [117, 110, 115, 105, 103, 110, 101, 100]             // unsigned

  predicate Elided(m: Member) {
    m.key == SIGNATURES || m.key == UNSIGNED
  }

  /** The members that are signed, in the order they came. */
  function Signed(members: seq<Member>): seq<Member> {
    if members == [] then []
    else if Elided(members[0]) then Signed(members[1..])
    else [members[0]] + Signed(members[1..])
  }

  function SignableView(v: Json): Serialized {
    match v
    case Obj(members) => Serialize(Obj(Signed(members)))
    case _ => Serialize(v)
  }

  lemma {:induction false} SignedMembers(members: seq<Member>, m: Member)
    ensures multiset(Signed(members))[m] == if Elided(m) then 0 else multiset(members)[m]
  {
    if members != [] {
      SignedMembers(members[1..], m);
      assert members == [members[0]] + members[1..];
    }
  }

  lemma SignedCons(m: Member, rest: seq<Member>)
    ensures Signed([m] + rest) == if Elided(m) then Signed(rest) else [m] + Signed(rest)
  {
    assert ([m] + rest)[1..] == rest;
  }

  lemma Regrouped(x: Member, rest: seq<Member>, m: Member, after: seq<Member>)
    ensures [x] + rest + [m] + after == [x] + (rest + [m] + after) && [x] + rest + after == [x] + (rest + after)
  {
  }

  /** An elided member changes nothing wherever it stands. */
  lemma {:induction false} SignedSkips(before: seq<Member>, m: Member, after: seq<Member>)
    requires Elided(m)
    ensures Signed(before + [m] + after) == Signed(before + after)
  {
    if before == [] {
      assert before + [m] + after == [m] + after && before + after == after;
      SignedCons(m, after);
    } else {
      var x, rest := before[0], before[1..];
      assert before == [x] + rest;
      Regrouped(x, rest, m, after);
      SignedSkips(rest, m, after);
      SignedCons(x, rest + [m] + after);
      SignedCons(x, rest + after);
    }
  }

  lemma NamesAreLiteral()
    ensures SIGNATURES == Ascii("signatures") && UNSIGNED == Ascii("unsigned")
  {
    assert |SIGNATURES| == 10 && forall i :: 0 <= i < 10 ==> SIGNATURES[i] == Ascii("signatures")[i];
    assert |UNSIGNED| == 8 && forall i :: 0 <= i < 8 ==> UNSIGNED[i] == Ascii("unsigned")[i];
  }

  /** A member named `signatures` or `unsigned` may stand anywhere at the top level, with any value, and is not signed. */
  lemma ElidedAnywhere(before: seq<Member>, name: Bytes, value: Json, after: seq<Member>)
    requires name == Ascii("signatures") || name == Ascii("unsigned")
    ensures SignableView(Obj(before + [Member(name, value)] + after)) == SignableView(Obj(before + after))
  {
    NamesAreLiteral();
    SignedSkips(before, Member(name, value), after);
  }

  lemma {:induction false} NothingElided(ms: seq<Member>)
    requires forall m :: m in ms ==> m.key != Ascii("signatures") && m.key != Ascii("unsigned")
    ensures Signed(ms) == ms
  {
    NamesAreLiteral();
    if ms != [] {
      NothingElided(ms[1..]);
      assert ms == [ms[0]] + ms[1..];
    }
  }

  /** Every other member is signed: without the two names the signed bytes are the canonical bytes of the value. */
  lemma AllElseSigned(v: Json)
    requires v.Obj? ==> forall m :: m in v.members ==> m.key != Ascii("signatures") && m.key != Ascii("unsigned")
    ensures SignableView(v) == Serialize(v)
  {
    if v.Obj? {
      NothingElided(v.members);
    }
  }

  lemma RepeatedKeyMoves(ms: seq<Member>, ns: seq<Member>)
    requires multiset(ms) == multiset(ns) && HasDuplicateKeys(ns)
    ensures HasDuplicateKeys(ms)
  {
    var i, j :| 0 <= i < j < |ns| && ns[i].key == ns[j].key;
    MultisetIndex(ns, ms, i);
    MultisetIndex(ns, ms, j);
    if ns[i] == ns[j] {
      NoDupIsMultiplicityOne(ms);
      NoDupIsMultiplicityOne(ns);
      var p, q :| 0 <= p < q < |ms| && ms[p] == ms[q];
    } else {
      var p :| 0 <= p < |ms| && ms[p] == ns[i];
      var q :| 0 <= q < |ms| && ms[q] == ns[j];
      if p < q { assert ms[p].key == ms[q].key; } else { assert ms[q].key == ms[p].key; }
    }
  }

  lemma ReorderedAcceptable(ms: seq<Member>, ns: seq<Member>)
    requires multiset(ms) == multiset(ns) && Acceptable(Obj(ms))
    ensures Acceptable(Obj(ns))
  {
    if HasDuplicateKeys(ns) { RepeatedKeyMoves(ms, ns); }
    forall j | 0 <= j < |ns| ensures Utf8.Valid(ns[j].key) && Acceptable(ns[j].value) {
      MultisetIndex(ns, ms, j);
    }
  }

  lemma ReorderedSameText(ms: seq<Member>, ns: seq<Member>)
    requires multiset(ms) == multiset(ns) && Acceptable(Obj(ms)) && Acceptable(Obj(ns))
    ensures Text(Obj(ms)) == Text(Obj(ns))
  {
    var es, fs := Map(ToEntry, ms), Map(ToEntry, ns);
    forall i | 0 <= i < |ms| ensures es[i] in fs {
      MultisetIndex(ms, ns, i);
      var j :| 0 <= j < |ns| && ns[j] == ms[i];
      assert fs[j] == es[i];
    }
    forall j | 0 <= j < |ns| ensures fs[j] in es {
      MultisetIndex(ns, ms, j);
      var i :| 0 <= i < |ms| && ms[i] == ns[j];
      assert es[i] == fs[j];
    }
    SameEntriesSameText(ms, ns);
  }

  /**
   The signed bytes, and whether there are any, do not change when the members are reordered at any
   level, or when top-level `signatures` and `unsigned` members are added, dropped or changed.
   */
  lemma SignableUnchanged(ms: seq<Member>, ns: seq<Member>)
    requires Equivalent(Obj(Signed(ms)), Obj(Signed(ns)))
    ensures SignableView(Obj(ms)).Ok? <==> SignableView(Obj(ns)).Ok?
    ensures SignableView(Obj(ms)).Ok? ==> SignableView(Obj(ms)) == SignableView(Obj(ns))
  {
    var a, b := Obj(Signed(ms)), Obj(Signed(ns));
    EquivalentAcceptance(a, b);
    if Serialize(a).Ok? {
      SameTextIffEquivalent(a, b);
    }
  }

  /** The same for top-level reordering, said of the members as they stand and with repeated keys allowed. */
  lemma SignableReordered(ms: seq<Member>, ns: seq<Member>)
    requires forall m: Member :: m.key != Ascii("signatures") && m.key != Ascii("unsigned") ==> multiset(ms)[m] == multiset(ns)[m]
    ensures SignableView(Obj(ms)).Ok? <==> SignableView(Obj(ns)).Ok?
    ensures SignableView(Obj(ms)).Ok? ==> SignableView(Obj(ms)) == SignableView(Obj(ns))
  {
    NamesAreLiteral();
    var a, b := Signed(ms), Signed(ns);
    forall m ensures multiset(a)[m] == multiset(b)[m] {
      SignedMembers(ms, m);
      SignedMembers(ns, m);
    }
    assert multiset(a) == multiset(b);
    SerializeIsText(Obj(a));
    SerializeIsText(Obj(b));
    if Acceptable(Obj(a)) { ReorderedAcceptable(a, b); }
    if Acceptable(Obj(b)) { ReorderedAcceptable(b, a); }
    if Acceptable(Obj(a)) {
      ReorderedSameText(a, b);
    }
  }

  /** An object has the signed bytes of a signable one exactly when their signed members are equivalent. */
  lemma SignableIffEquivalent(ms: seq<Member>, ns: seq<Member>)
    requires SignableView(Obj(ms)).Ok?
    ensures SignableView(Obj(ms)) == SignableView(Obj(ns)) <==> Equivalent(Obj(Signed(ms)), Obj(Signed(ns)))
  {
    SameTextIffEquivalent(Obj(Signed(ms)), Obj(Signed(ns)));
  }
}
