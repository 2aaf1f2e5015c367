/** The conversion as it runs: arrays and objects are filled in place, with a set of the keys already seen. */
module Converter {
  import opened Prelude
  import opened Decimal
  import opened CanonicalJson
  import opened Parser

  /** An error among the first items is the error of the whole list. */
  lemma {:induction false} RejectedItem(items: seq<Node>, n: nat, depth: nat, preserveNumbers: bool)
    requires n <= |items| && ConvertItems(items[..n], depth, preserveNumbers).Rejected?
    ensures ConvertItems(items, depth, preserveNumbers) == ConvertItems(items[..n], depth, preserveNumbers)
  {
    if n < |items| {
      var k := |items| - 1;
      assert items[..k][..n] == items[..n];
      RejectedItem(items[..k], n, depth, preserveNumbers);
    } else {
      assert items[..n] == items;
    }
  }

  lemma {:induction false} RejectedField(fields: seq<Field>, n: nat, depth: nat, preserveNumbers: bool)
    requires n <= |fields| && ConvertFields(fields[..n], depth, preserveNumbers).Rejected?
    ensures ConvertFields(fields, depth, preserveNumbers) == ConvertFields(fields[..n], depth, preserveNumbers)
  {
    if n < |fields| {
      var k := |fields| - 1;
      assert fields[..k][..n] == fields[..n];
      RejectedField(fields[..k], n, depth, preserveNumbers);
    } else {
      assert fields[..n] == fields;
    }
  }

  ghost predicate ItemsTo(items: seq<Node>, i: nat, depth: nat, preserveNumbers: bool, values: seq<Json>) {
    i <= |items| && ConvertItems(items[..i], depth, preserveNumbers) == Value(values)
  }

  lemma ItemsStep(items: seq<Node>, i: nat, depth: nat, preserveNumbers: bool, values: seq<Json>)
    requires i < |items| && ItemsTo(items, i, depth, preserveNumbers, values)
    ensures match Convert(items[i], depth + 1, preserveNumbers)
            case Rejected(e) => ConvertItems(items, depth, preserveNumbers) == Rejected(e)
            case Value(v) => ItemsTo(items, i + 1, depth, preserveNumbers, values + [v])
  {
    Parser.ItemsAppend(items[..i], items[i], depth, preserveNumbers);
    assert items[..i + 1] == items[..i] + [items[i]];
    if Convert(items[i], depth + 1, preserveNumbers).Rejected? {
      RejectedItem(items, i + 1, depth, preserveNumbers);
    }
  }

  method ConvertArray(items: seq<Node>, depth: nat, preserveNumbers: bool) returns (r: Converted<Json>)
    ensures r == match ConvertItems(items, depth, preserveNumbers)
                 case Rejected(e) => Rejected(e)
                 case Value(vs) => Value(Arr(vs))
    decreases items, 0
  {
    var values: seq<Json> := [];
    var i := 0;
    while i < |items|
      invariant ItemsTo(items, i, depth, preserveNumbers, values)
    {
      var converted := ConvertValue(items[i], depth + 1, preserveNumbers);
      ItemsStep(items, i, depth, preserveNumbers, values);
      if converted.Rejected? {
        return Rejected(converted.error);
      }
      values := values + [converted.value];
      i := i + 1;
    }
    assert items[..i] == items;
    return Value(Arr(values));
  }

  lemma SeenGrows(fields: seq<Field>, i: nat, seen: set<Bytes>)
    requires i < |fields| && forall k :: k in seen <==> KeySeen(fields[..i], k)
    ensures forall k :: k in seen + {fields[i].key} <==> KeySeen(fields[..i + 1], k)
  {
    forall k ensures k in seen + {fields[i].key} <==> KeySeen(fields[..i + 1], k) {
      assert fields[..i + 1][i] == fields[i];
      assert forall j :: 0 <= j < i ==> fields[..i + 1][j] == fields[..i][j];
    }
  }

  ghost predicate FieldsTo(fields: seq<Field>, i: nat, depth: nat, preserveNumbers: bool, seen: set<Bytes>, pairs: seq<Member>) {
    && i <= |fields| && ConvertFields(fields[..i], depth, preserveNumbers) == Value(pairs)
    && forall k :: k in seen <==> KeySeen(fields[..i], k)
  }

  lemma FieldsGoOn(fields: seq<Field>, i: nat, depth: nat, preserveNumbers: bool, seen: set<Bytes>, pairs: seq<Member>, v: Json)
    requires i < |fields| && FieldsTo(fields, i, depth, preserveNumbers, seen, pairs) && fields[i].key !in seen
    requires Convert(fields[i].value, depth + 1, preserveNumbers) == Value(v)
    ensures FieldsTo(fields, i + 1, depth, preserveNumbers, seen + {fields[i].key}, pairs + [Member(fields[i].key, v)])
  {
    FieldsAppend(fields[..i], fields[i], depth, preserveNumbers);
    assert fields[..i + 1] == fields[..i] + [fields[i]];
    SeenGrows(fields, i, seen);
  }

  lemma FieldsFail(fields: seq<Field>, i: nat, depth: nat, preserveNumbers: bool, seen: set<Bytes>, pairs: seq<Member>, e: ParseError)
    requires i < |fields| && FieldsTo(fields, i, depth, preserveNumbers, seen, pairs)
    requires if fields[i].key in seen then e == DuplicateKey
             else Convert(fields[i].value, depth + 1, preserveNumbers) == Rejected(e)
    ensures ConvertFields(fields, depth, preserveNumbers) == Rejected(e)
  {
    FieldsAppend(fields[..i], fields[i], depth, preserveNumbers);
    assert fields[..i + 1] == fields[..i] + [fields[i]];
    RejectedField(fields, i + 1, depth, preserveNumbers);
  }

  method ConvertObject(fields: seq<Field>, depth: nat, preserveNumbers: bool) returns (r: Converted<Json>)
    ensures r == match ConvertFields(fields, depth, preserveNumbers)
                 case Rejected(e) => Rejected(e)
                 case Value(ms) => Value(Obj(ms))
    decreases fields, 0
  {
    var pairs: seq<Member> := [];
    var seen: set<Bytes> := {};
    var i := 0;
    while i < |fields|
      invariant FieldsTo(fields, i, depth, preserveNumbers, seen, pairs)
    {
      var key := fields[i].key;
      if key in seen {
        FieldsFail(fields, i, depth, preserveNumbers, seen, pairs, DuplicateKey);
        return Rejected(DuplicateKey);
      }
      var converted := ConvertValue(fields[i].value, depth + 1, preserveNumbers);
      if converted.Rejected? {
        FieldsFail(fields, i, depth, preserveNumbers, seen, pairs, converted.error);
        return Rejected(converted.error);
      }
      FieldsGoOn(fields, i, depth, preserveNumbers, seen, pairs, converted.value);
      seen := seen + {key};
      pairs := pairs + [Member(key, converted.value)];
      i := i + 1;
    }
    assert fields[..i] == fields;
    return Value(Obj(pairs));
  }

  /** What the recursive conversion returns for a node. */
  method ConvertValue(node: Node, depth: nat, preserveNumbers: bool) returns (r: Converted<Json>)
    ensures r == Convert(node, depth, preserveNumbers)
    decreases node, 1
  {
    if depth > MAX_DEPTH {
      return Rejected(NestingTooDeep);
    }
    match node {
      case NullNode => r := Value(Null);
      case BoolNode(b) => r := Value(Bool(b));
      case RawNode(token) => r := ConvertRaw(token, preserveNumbers);
      case IntegerNode(n) =>
        r := if -MAX_SAFE <= n <= MAX_SAFE then Value(Int(n)) else Rejected(IntegerTooLarge);
      case RealNode(d) => r := Value(Double(d));
      case StringNode(s) => r := Value(Str(s));
      case ArrayNode(items) => r := ConvertArray(items, depth, preserveNumbers);
      case ObjectNode(fields) =>
        if |fields| > MAX_OBJECT_MEMBERS {
          return Rejected(TooManyObjectMembers);
        }
        r := ConvertObject(fields, depth, preserveNumbers);
      case UnknownNode => r := Rejected(UnexpectedToken);
    }
  }
}
