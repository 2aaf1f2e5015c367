/**
 Conversion of a parsed document into a JSON value. The document tree is what the third-party
 reader delivers; a number is raw text, or already a number when the document was read for numbers.
 */
module Parser {
  import opened Prelude
  import opened Decimal
  import opened CanonicalJson
  import Utf8

  const MAX_DEPTH := 64
  const MAX_OBJECT_MEMBERS := 65536

  datatype Node =
    | NullNode
    | BoolNode(b: bool)
    | RawNode(token: Bytes)
    | IntegerNode(n: int)
    | RealNode(d: real)
    | StringNode(s: Bytes)
    | ArrayNode(items: seq<Node>)
    | ObjectNode(fields: seq<Field>)
    | UnknownNode

  datatype Field = Field(key: Bytes, value: Node)

  datatype ParseError =
    | NestingTooDeep | UnexpectedToken | InvalidNumber | IntegerTooLarge | DuplicateKey | TooManyObjectMembers

  datatype Converted<+T> = Value(value: T) | Rejected(error: ParseError)

  function ConvertRaw(token: Bytes, preserveNumbers: bool): Converted<Json> {
    match RawNumberAsInt64(token)
    case Integer(n) => Value(Int(n))
    case InvalidNumber => if preserveNumbers then Value(Raw(token)) else Rejected(ParseError.InvalidNumber)
    case IntegerOutOfRange => if preserveNumbers then Value(Raw(token)) else Rejected(IntegerTooLarge)
  }

  /** The value of a node at `depth` levels below the root, or the first error met from left to right. */
  function Convert(node: Node, depth: nat, preserveNumbers: bool): Converted<Json>
    decreases node, 1
  {
    if depth > MAX_DEPTH then Rejected(NestingTooDeep)
    else
      match node
      case NullNode => Value(Null)
      case BoolNode(b) => Value(Bool(b))
      case RawNode(token) => ConvertRaw(token, preserveNumbers)
      case IntegerNode(n) => if -MAX_SAFE <= n <= MAX_SAFE then Value(Int(n)) else Rejected(IntegerTooLarge)
      case RealNode(d) => Value(Double(d))
      case StringNode(s) => Value(Str(s))
      case ArrayNode(items) =>
        (match ConvertItems(items, depth, preserveNumbers)
         case Rejected(e) => Rejected(e)
         case Value(vs) => Value(Arr(vs)))
      case ObjectNode(fields) =>
        if |fields| > MAX_OBJECT_MEMBERS then Rejected(TooManyObjectMembers)
        else
          (match ConvertFields(fields, depth, preserveNumbers)
           case Rejected(e) => Rejected(e)
           case Value(ms) => Value(Obj(ms)))
      case UnknownNode => Rejected(UnexpectedToken)
  }

  function ConvertItems(items: seq<Node>, depth: nat, preserveNumbers: bool): Converted<seq<Json>>
    decreases items, 0
  {
    if items == [] then Value([])
    else
      match ConvertItems(items[..|items| - 1], depth, preserveNumbers)
      case Rejected(e) => Rejected(e)
      case Value(vs) =>
        match Convert(items[|items| - 1], depth + 1, preserveNumbers)
        case Rejected(e) => Rejected(e)
        case Value(v) => Value(vs + [v])
  }

  predicate KeySeen(fields: seq<Field>, key: Bytes) {
    exists i :: 0 <= i < |fields| && fields[i].key == key
  }

  function ConvertFields(fields: seq<Field>, depth: nat, preserveNumbers: bool): Converted<seq<Member>>
    decreases fields, 0
  {
    if fields == [] then Value([])
    else
      var last, before := fields[|fields| - 1], fields[..|fields| - 1];
      match ConvertFields(before, depth, preserveNumbers)
      case Rejected(e) => Rejected(e)
      case Value(ms) =>
        if KeySeen(before, last.key) then Rejected(DuplicateKey)
        else
          match Convert(last.value, depth + 1, preserveNumbers)
          case Rejected(e) => Rejected(e)
          case Value(v) => Value(ms + [Member(last.key, v)])
  }

  // ---------------------------------------------------------------- which documents convert

  ghost predicate UniqueFieldKeys(fields: seq<Field>) {
    forall i, j :: 0 <= i < j < |fields| ==> fields[i].key != fields[j].key
  }

  /** A canonical document: nothing deeper than the limit, printed safe integers, unique keys, bounded objects. */
  ghost predicate CanonicalDocument(node: Node, depth: nat) {
    depth <= 64 &&
    match node
    case NullNode => true
    case BoolNode(_) => true
    case RawNode(token) => exists n :: -9007199254740991 <= n <= 9007199254740991 && token == Print(n)
    case IntegerNode(n) => -9007199254740991 <= n <= 9007199254740991
    case RealNode(_) => true
    case StringNode(_) => true
    case ArrayNode(items) => forall i :: 0 <= i < |items| ==> CanonicalDocument(items[i], depth + 1)
    case ObjectNode(fields) =>
      && |fields| <= 65536
      && UniqueFieldKeys(fields)
      && forall i :: 0 <= i < |fields| ==> CanonicalDocument(fields[i].value, depth + 1)
    case UnknownNode => false
  }

  /** `v` holds exactly what the document holds: the same shape, strings, keys and numbers, in the same order. */
  ghost predicate Represents(v: Json, node: Node) {
    match node
    case NullNode => v == Null
    case BoolNode(b) => v == Bool(b)
    case RawNode(token) => v.Int? && token == Print(v.n)
    case IntegerNode(n) => v.Int? && v.n == n
    case RealNode(d) => v == Double(d)
    case StringNode(s) => v == Str(s)
    case ArrayNode(items) =>
      v.Arr? && |v.items| == |items| && forall i :: 0 <= i < |items| ==> Represents(v.items[i], items[i])
    case ObjectNode(fields) =>
      v.Obj? && |v.members| == |fields| &&
      forall i :: 0 <= i < |fields| ==> v.members[i].key == fields[i].key && Represents(v.members[i].value, fields[i].value)
    case UnknownNode => false
  }

  lemma RawConverts(token: Bytes)
    ensures ConvertRaw(token, false).Value? <==> exists n :: -9007199254740991 <= n <= 9007199254740991 && token == Print(n)
    ensures ConvertRaw(token, false).Value? ==>
            ConvertRaw(token, false).value.Int? && token == Print(ConvertRaw(token, false).value.n)
  {
    if RawNumberAsInt64(token).Integer? {
      RawNumberIsPrinted(token, RawNumberAsInt64(token).value);
    }
    forall n | -9007199254740991 <= n <= 9007199254740991 && token == Print(n) ensures RawNumberAsInt64(token).Integer? {
      RawNumberIsPrinted(token, n);
    }
  }

  /** Preserving numbers, no token is refused: a printed safe integer becomes that integer, any other stays as it is. */
  lemma RawPreserved(token: Bytes)
    ensures ConvertRaw(token, true).Value?
    ensures forall n: int64 :: ConvertRaw(token, true) == Value(Int(n)) <==>
                               -9007199254740991 <= n <= 9007199254740991 && token == Print(n)
    ensures !ConvertRaw(token, true).value.Int? ==> ConvertRaw(token, true) == Value(Raw(token))
  {
    forall n: int64
      ensures ConvertRaw(token, true) == Value(Int(n)) <==>
              -9007199254740991 <= n <= 9007199254740991 && token == Print(n)
    {
      RawNumberIsPrinted(token, n);
    }
  }

  /** Otherwise a printed integer outside the safe range is too large, and anything else is no number. */
  lemma RawRefused(token: Bytes, n: int)
    ensures token == Print(n) && !(-9007199254740991 <= n <= 9007199254740991) ==>
            ConvertRaw(token, false) == Rejected(IntegerTooLarge)
    ensures (forall m :: token != Print(m)) ==> ConvertRaw(token, false) == Rejected(ParseError.InvalidNumber)
  {
    RawNumberErrors(token, n);
  }

  ghost predicate AllCanonical(items: seq<Node>, depth: nat) {
    forall i :: 0 <= i < |items| ==> CanonicalDocument(items[i], depth)
  }

  ghost predicate ItemsRepresent(vs: seq<Json>, items: seq<Node>) {
    |vs| == |items| && forall i :: 0 <= i < |items| ==> Represents(vs[i], items[i])
  }

  lemma ItemsAppend(init: seq<Node>, last: Node, depth: nat, preserveNumbers: bool)
    ensures ConvertItems(init + [last], depth, preserveNumbers) ==
            match ConvertItems(init, depth, preserveNumbers)
            case Rejected(e) => Rejected(e)
            case Value(vs) =>
              match Convert(last, depth + 1, preserveNumbers)
              case Rejected(e) => Rejected(e)
              case Value(v) => Value(vs + [v])
  {
    assert (init + [last])[..|init|] == init;
  }

  lemma AllCanonicalAppend(init: seq<Node>, last: Node, depth: nat)
    ensures AllCanonical(init + [last], depth) <==> AllCanonical(init, depth) && CanonicalDocument(last, depth)
  {
    var items := init + [last];
    assert items[|init|] == last && forall i :: 0 <= i < |init| ==> items[i] == init[i];
  }

  lemma {:induction false} ItemsConvert(items: seq<Node>, depth: nat)
    ensures ConvertItems(items, depth, false).Value? <==> AllCanonical(items, depth + 1)
    ensures ConvertItems(items, depth, false).Value? ==> ItemsRepresent(ConvertItems(items, depth, false).value, items)
    decreases items, 0
  {
    if items != [] {
      var init, last := items[..|items| - 1], items[|items| - 1];
      ItemsConvert(init, depth);
      DocumentConverts(last, depth + 1);
      assert items == init + [last];
      ItemsAppend(init, last, depth, false);
      AllCanonicalAppend(init, last, depth + 1);
    }
  }

  ghost predicate FieldsCanonical(fields: seq<Field>, depth: nat) {
    forall i :: 0 <= i < |fields| ==> CanonicalDocument(fields[i].value, depth)
  }

  ghost predicate MembersRepresent(ms: seq<Member>, fields: seq<Field>) {
    && |ms| == |fields|
    && forall i :: 0 <= i < |fields| ==> ms[i].key == fields[i].key && Represents(ms[i].value, fields[i].value)
  }

  lemma FieldsAppend(init: seq<Field>, last: Field, depth: nat, preserveNumbers: bool)
    ensures ConvertFields(init + [last], depth, preserveNumbers) ==
            match ConvertFields(init, depth, preserveNumbers)
            case Rejected(e) => Rejected(e)
            case Value(ms) =>
              if KeySeen(init, last.key) then Rejected(DuplicateKey)
              else
                match Convert(last.value, depth + 1, preserveNumbers)
                case Rejected(e) => Rejected(e)
                case Value(v) => Value(ms + [Member(last.key, v)])
  {
    assert (init + [last])[..|init|] == init;
  }

  lemma FieldsCanonicalAppend(init: seq<Field>, last: Field, depth: nat)
    ensures FieldsCanonical(init + [last], depth) <==> FieldsCanonical(init, depth) && CanonicalDocument(last.value, depth)
  {
    var fields := init + [last];
    assert fields[|init|] == last && forall i :: 0 <= i < |init| ==> fields[i] == init[i];
  }

  lemma UniqueAppend(init: seq<Field>, last: Field)
    ensures UniqueFieldKeys(init + [last]) <==> UniqueFieldKeys(init) && !KeySeen(init, last.key)
  {
    var fields := init + [last];
    assert fields[|init|] == last && forall i :: 0 <= i < |init| ==> fields[i] == init[i];
    if KeySeen(init, last.key) {
      var i :| 0 <= i < |init| && init[i].key == last.key;
      assert fields[i].key == fields[|init|].key;
    }
  }

  lemma {:induction false} FieldsConvert(fields: seq<Field>, depth: nat)
    ensures ConvertFields(fields, depth, false).Value? <==> UniqueFieldKeys(fields) && FieldsCanonical(fields, depth + 1)
    ensures ConvertFields(fields, depth, false).Value? ==> MembersRepresent(ConvertFields(fields, depth, false).value, fields)
    decreases fields, 0
  {
    if fields != [] {
      var init, last := fields[..|fields| - 1], fields[|fields| - 1];
      FieldsConvert(init, depth);
      DocumentConverts(last.value, depth + 1);
      assert fields == init + [last];
      FieldsAppend(init, last, depth, false);
      FieldsCanonicalAppend(init, last, depth + 1);
      UniqueAppend(init, last);
    }
  }

  /** Conversion without number preservation succeeds exactly on canonical documents, and loses nothing. */
  lemma {:induction false} DocumentConverts(node: Node, depth: nat)
    ensures Convert(node, depth, false).Value? <==> CanonicalDocument(node, depth)
    ensures Convert(node, depth, false).Value? ==> Represents(Convert(node, depth, false).value, node)
    decreases node, 1
  {
    match node {
      case RawNode(token) => RawConverts(token);
      case ArrayNode(items) => ItemsConvert(items, depth);
      case ObjectNode(fields) => FieldsConvert(fields, depth);
      case _ =>
    }
  }

  // ---------------------------------------------------------------- what conversion delivers is serializable

  /** A document as the reader delivers it for canonical parsing: valid strings, numbers left as text. */
  ghost predicate RawNumbered(node: Node) {
    match node
    case IntegerNode(_) => false
    case RealNode(_) => false
    case StringNode(s) => Utf8.Valid(s)
    case ArrayNode(items) => forall i :: 0 <= i < |items| ==> RawNumbered(items[i])
    case ObjectNode(fields) =>
      forall i :: 0 <= i < |fields| ==> Utf8.Valid(fields[i].key) && RawNumbered(fields[i].value)
    case _ => true
  }

  /** How many levels there are below a value. */
  function Height(v: Json): nat {
    match v
    case Arr(items) => if items == [] then 0 else 1 + MaxHeight(seq(|items|, i requires 0 <= i < |items| => Height(items[i])))
    case Obj(members) =>
      if members == [] then 0
      else 1 + MaxHeight(seq(|members|, i requires 0 <= i < |members| => Height(members[i].value)))
    case _ => 0
  }

  function MaxHeight(hs: seq<nat>): (m: nat)
    ensures forall i :: 0 <= i < |hs| ==> hs[i] <= m
    ensures hs != [] ==> m in hs
  {
    if hs == [] then 0
    else
      var m := MaxHeight(hs[1..]);
      assert forall i :: 0 < i < |hs| ==> hs[i] == hs[1..][i - 1];
      if hs[0] > m then hs[0] else if |hs| == 1 then hs[0] else m
  }

  ghost predicate SafeIntegers(v: Json) {
    match v
    case Int(n) => -9007199254740991 <= n <= 9007199254740991
    case Arr(items) => forall i :: 0 <= i < |items| ==> SafeIntegers(items[i])
    case Obj(members) => forall i :: 0 <= i < |members| ==> SafeIntegers(members[i].value)
    case _ => true
  }

  lemma PrintInjective(m: int, n: int)
    requires Print(m) == Print(n) && -9007199254740991 <= n <= 9007199254740991
    ensures m == n
  {
    RawNumberIsPrinted(Print(n), n);
    CanonicalIsPrinted(Print(n));
    if m < 0 { DigitsRoundTrip(Abs(m)); assert Print(m)[1..] == Digits(Abs(m)); } else { DigitsRoundTrip(m); }
    if n < 0 { DigitsRoundTrip(Abs(n)); assert Print(n)[1..] == Digits(Abs(n)); } else { DigitsRoundTrip(n); }
  }

  lemma {:induction false} RepresentationIsAcceptable(v: Json, node: Node, depth: nat)
    requires CanonicalDocument(node, depth) && RawNumbered(node) && Represents(v, node)
    ensures Acceptable(v) && SafeIntegers(v) && Height(v) + depth <= 64
    decreases node
  {
    match node {
      case RawNode(token) =>
        var n :| -9007199254740991 <= n <= 9007199254740991 && token == Print(n);
        PrintInjective(v.n, n);
      case ArrayNode(items) =>
        forall i | 0 <= i < |items|
          ensures Acceptable(v.items[i]) && SafeIntegers(v.items[i]) && Height(v.items[i]) + depth + 1 <= 64
        {
          RepresentationIsAcceptable(v.items[i], items[i], depth + 1);
        }
      case ObjectNode(fields) =>
        forall i | 0 <= i < |fields|
          ensures Acceptable(v.members[i].value) && SafeIntegers(v.members[i].value)
          ensures Height(v.members[i].value) + depth + 1 <= 64
        {
          RepresentationIsAcceptable(v.members[i].value, fields[i].value, depth + 1);
        }
      case _ =>
    }
  }

  /** Every value the canonical parser delivers can be signed, is at most 64 levels deep and holds safe integers. */
  lemma ConvertedIsAcceptable(node: Node)
    requires RawNumbered(node) && Convert(node, 0, false).Value?
    ensures var v := Convert(node, 0, false).value;
            Serialize(v).Ok? && SafeIntegers(v) && Height(v) <= 64
  {
    DocumentConverts(node, 0);
    RepresentationIsAcceptable(Convert(node, 0, false).value, node, 0);
    SerializeIsText(Convert(node, 0, false).value);
  }
}
