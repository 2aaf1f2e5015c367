/**
 The internal token that names an application service and the user it acts as: three length-prefixed
 fields behind a fixed prefix, read by one cursor in 64-bit arithmetic.
 */
module MasqueradeToken {
  import opened Prelude
  import opened Decimal

  const COLON: byte := 58

  /** appservice-masquerade:v1: */
  const PREFIX: Bytes := [97, 112, 112, 115, 101, 114, 118, 105, 99, 101, 45, 109, 97, 115, 113, 117, 101, 114, 97,
                          100, 101, 58, 118, 49, 58]

  datatype Identity = Identity(appservice: Bytes, user: Bytes, device: Bytes)

  function FieldText(field: Bytes): Bytes {
    Digits(|field|) + [COLON] + field
  }

  function Encode(id: Identity): Bytes {
    PREFIX + FieldText(id.appservice) + FieldText(id.user) + FieldText(id.device)
  }

  /** The whole text of a token: the version prefix, then three decimal lengths, colons and fields. */
  lemma TokenText(id: Identity)
    ensures Encode(id) == Ascii("appservice-masquerade:v1:")
                          + (Digits(|id.appservice|) + Ascii(":") + id.appservice)
                          + (Digits(|id.user|) + Ascii(":") + id.user)
                          + (Digits(|id.device|) + Ascii(":") + id.device)
  {
    assert Ascii(":") == [COLON];
    PrefixText();
  }

  lemma PrefixText()
    ensures PREFIX == Ascii("appservice-masquerade:v1:")
  {
    assert |PREFIX| == 25 && forall i :: 0 <= i < 25 ==> PREFIX[i] == Ascii("appservice-masquerade:v1:")[i];
  }

  // ---------------------------------------------------------------- reading

  datatype Read = Read(field: Bytes, cursor: nat)

  /** The first colon at or after the cursor. */
  function FindColon(token: Bytes, cursor: nat): (r: Option<nat>)
    ensures r.Some? ==> cursor <= r.value < |token| && token[r.value] == COLON
    decreases |token| - cursor
  {
    if cursor >= |token| then None
    else if token[cursor] == COLON then Some(cursor)
    else FindColon(token, cursor + 1)
  }

  /** std::from_chars into an unsigned 64-bit integer that has to consume the whole text. */
  function ParseSize(text: Bytes): Option<nat> {
    if text == [] || !AllDigits(text) || DigitsValue(text) >= SIZE_LIMIT then None else Some(DigitsValue(text))
  }

  /** std::string_view::substr: clamped at the end of the text. */
  function Substr(s: Bytes, pos: nat, n: nat): Bytes
    requires pos <= |s|
  {
    s[pos..if pos + n <= |s| then pos + n else |s|]
  }

  /** One field at the cursor. The end of the field is computed modulo 2^64. */
  function ReadField(token: Bytes, cursor: nat): Option<Read> {
    var colon := FindColon(token, cursor);
    if colon.None? then None
    else
      var length := ParseSize(token[cursor..colon.value]);
      if length.None? then None
      else
        var start := colon.value + 1;
        var end := (start + length.value) % SIZE_LIMIT;
        if end > |token| then None else Some(Read(Substr(token, start, length.value), end))
  }

  /** Three fields from the cursor to the end of the token. */
  function DecodeFrom(token: Bytes, cursor: nat): Option<Identity> {
    var a := ReadField(token, cursor);
    if a.None? then None
    else
      var u := ReadField(token, a.value.cursor);
      if u.None? then None
      else
        var d := ReadField(token, u.value.cursor);
        if d.None? || d.value.cursor != |token| then None
        else Some(Identity(a.value.field, u.value.field, d.value.field))
  }

  function Decode(token: Bytes): Option<Identity> {
    if PREFIX <= token then DecodeFrom(token, |PREFIX|) else None
  }

  // ---------------------------------------------------------------- decoding undoes encoding

  lemma {:induction false} ColonAfterDigits(token: Bytes, cursor: nat, colon: nat)
    requires cursor <= colon < |token| && token[colon] == COLON && AllDigits(token[cursor..colon])
    ensures FindColon(token, cursor) == Some(colon)
    decreases colon - cursor
  {
    if cursor < colon {
      assert token[cursor] == token[cursor..colon][0];
      assert token[cursor..colon][1..] == token[cursor + 1..colon];
      ColonAfterDigits(token, cursor + 1, colon);
    }
  }

  /** A length text that denotes the field's length, a colon and the field read back as that field. */
  lemma ReadsField(token: Bytes, cursor: nat, text: Bytes, field: Bytes)
    requires |token| < SIZE_LIMIT && cursor <= |token| && ParseSize(text) == Some(|field|)
    requires text + [COLON] + field <= token[cursor..]
    ensures ReadField(token, cursor) == Some(Read(field, cursor + |text + [COLON] + field|))
  {
    var whole := text + [COLON] + field;
    var colon := cursor + |text|;
    assert token[cursor..][..|whole|] == whole;
    assert forall i :: 0 <= i < |whole| ==> token[cursor + i] == whole[i];
    assert token[colon] == whole[|text|];
    assert token[cursor..colon] == text;
    ColonAfterDigits(token, cursor, colon);
    assert token[colon + 1..colon + 1 + |field|] == field;
  }

  lemma DigitsParse(n: nat)
    requires n < SIZE_LIMIT
    ensures ParseSize(Digits(n)) == Some(n)
  {
    DigitsRoundTrip(n);
  }

  /** Reads a field and leaves the cursor at what follows it. */
  lemma ReadsNext(token: Bytes, cursor: nat, text: Bytes, field: Bytes, rest: Bytes) returns (next: nat)
    requires |token| < SIZE_LIMIT && cursor <= |token| && ParseSize(text) == Some(|field|)
    requires token[cursor..] == text + [COLON] + field + rest
    ensures ReadField(token, cursor) == Some(Read(field, next)) && next <= |token| && token[next..] == rest
  {
    next := cursor + |text + [COLON] + field|;
    ReadsField(token, cursor, text, field);
    assert token[next..] == token[cursor..][next - cursor..];
  }

  lemma ReadsWritten(token: Bytes, cursor: nat, field: Bytes, rest: Bytes) returns (next: nat)
    requires |token| < SIZE_LIMIT && cursor <= |token| && token[cursor..] == FieldText(field) + rest
    ensures ReadField(token, cursor) == Some(Read(field, next)) && next <= |token| && token[next..] == rest
  {
    DigitsParse(|field|);
    next := ReadsNext(token, cursor, Digits(|field|), field, rest);
  }

  lemma DecodeFromIs(token: Bytes, cursor: nat, a: Read, u: Read, d: Read)
    requires ReadField(token, cursor) == Some(a) && ReadField(token, a.cursor) == Some(u)
    requires ReadField(token, u.cursor) == Some(d) && d.cursor == |token|
    ensures DecodeFrom(token, cursor) == Some(Identity(a.field, u.field, d.field))
  {
  }

  /** Three fields in a row, the first behind any length text that denotes its length. */
  lemma ReadsThree(token: Bytes, cursor: nat, text: Bytes, id: Identity)
    requires |token| < SIZE_LIMIT && cursor <= |token| && ParseSize(text) == Some(|id.appservice|)
    requires token[cursor..] == text + [COLON] + id.appservice + (FieldText(id.user) + FieldText(id.device))
    ensures DecodeFrom(token, cursor) == Some(id)
  {
    var c1 := ReadsNext(token, cursor, text, id.appservice, FieldText(id.user) + FieldText(id.device));
    var c2 := ReadsWritten(token, c1, id.user, FieldText(id.device));
    assert token[c2..] == FieldText(id.device) + [];
    var c3 := ReadsWritten(token, c2, id.device, []);
    DecodeFromIs(token, cursor, Read(id.appservice, c1), Read(id.user, c2), Read(id.device, c3));
  }

  lemma EncodeSplits(id: Identity)
    ensures PREFIX <= Encode(id)
    ensures Encode(id)[|PREFIX|..] == FieldText(id.appservice) + (FieldText(id.user) + FieldText(id.device))
  {
    Split(PREFIX, FieldText(id.appservice), FieldText(id.user), FieldText(id.device));
  }

  lemma Split(p: Bytes, a: Bytes, b: Bytes, c: Bytes)
    ensures p <= p + a + b + c && (p + a + b + c)[|p|..] == a + (b + c)
  {
  }

  /** Every identity comes back from its token, whatever bytes its fields hold. */
  lemma DecodeUndoesEncode(id: Identity)
    requires |Encode(id)| < SIZE_LIMIT
    ensures Decode(Encode(id)) == Some(id)
  {
    DigitsParse(|id.appservice|);
    EncodeSplits(id);
    ReadsThree(Encode(id), |PREFIX|, Digits(|id.appservice|), id);
  }

  // ---------------------------------------------------------------- which tokens are the encoder's

  lemma {:induction false} LeadingZeroKeepsValue(s: Bytes)
    requires AllDigits(s)
    ensures AllDigits([ZERO] + s) && DigitsValue([ZERO] + s) == DigitsValue(s)
  {
    var z := [ZERO] + s;
    if s == [] {
      assert z[..0] == [];
    } else {
      LeadingZeroKeepsValue(s[..|s| - 1]);
      assert z[..|z| - 1] == [ZERO] + s[..|s| - 1];
    }
  }

  /** The decoder also accepts tokens the encoder never writes: a zero before a length changes nothing. */
  lemma PaddedTokenDecodes(id: Identity)
    requires |Encode(id)| + 1 < SIZE_LIMIT
    ensures var padded := PREFIX + [ZERO] + Encode(id)[|PREFIX|..];
            padded != Encode(id) && Decode(padded) == Some(id)
  {
    var text := [ZERO] + Digits(|id.appservice|);
    var padded := PREFIX + [ZERO] + Encode(id)[|PREFIX|..];
    LeadingZeroKeepsValue(Digits(|id.appservice|));
    DigitsRoundTrip(|id.appservice|);
    EncodeSplits(id);
    var rest := FieldText(id.user) + FieldText(id.device);
    Pad(PREFIX, Digits(|id.appservice|), [COLON], id.appservice, rest);
    ReadsThree(padded, |PREFIX|, text, id);
  }

  lemma Pad(p: Bytes, digits: Bytes, colon: Bytes, field: Bytes, rest: Bytes)
    ensures var padded := p + [ZERO] + (digits + colon + field + rest);
            p <= padded && padded[|p|..] == [ZERO] + digits + colon + field + rest
  {
  }

  // ---------------------------------------------------------------- what a wrapped length reads

  /** Where the bytes of the field at the cursor start, and how many its length text declares. */
  predicate Declares(token: Bytes, cursor: nat, start: nat, length: nat) {
    var colon := FindColon(token, cursor);
    colon.Some? && start == colon.value + 1 && ParseSize(token[cursor..colon.value]) == Some(length)
  }

  /** A declared field is accepted when it ends inside the token, and whenever its end wraps past 2^64. */
  lemma DeclaredFieldAccepted(token: Bytes, cursor: nat, start: nat, length: nat)
    requires |token| < SIZE_LIMIT && Declares(token, cursor, start, length)
    ensures ReadField(token, cursor).Some? <==> start + length <= |token| || start + length >= SIZE_LIMIT
  {
  }

  /** What is read is the declared number of bytes, ending at the new cursor, exactly when they are there. */
  lemma FieldIsDeclared(token: Bytes, cursor: nat, start: nat, length: nat)
    requires |token| < SIZE_LIMIT && Declares(token, cursor, start, length) && ReadField(token, cursor).Some?
    ensures var r := ReadField(token, cursor).value;
            start + length <= |token| <==>
            r.cursor == start + length && |r.field| == length && start <= r.cursor <= |token| && r.field == token[start..r.cursor]
    ensures !(start + length <= |token|) ==>
            ReadField(token, cursor).value == Read(token[start..], start + length - SIZE_LIMIT)
            && ReadField(token, cursor).value.cursor < start
  {
    if start + length >= SIZE_LIMIT {
      assert (start + length) % SIZE_LIMIT == start + length - SIZE_LIMIT;
    } else {
      assert (start + length) % SIZE_LIMIT == start + length;
    }
  }

  const WRAPPING_LENGTH: nat := SIZE_LIMIT - 2

  lemma WrappingTextEndsInFour()
    ensures Digits(WRAPPING_LENGTH) == Digits(WRAPPING_LENGTH / 10) + [52]
  {
  }

  lemma {:induction false} DigitsAreShort(n: nat)
    ensures |Digits(n)| <= n / 10 + 1
  {
    if n >= 10 {
      DigitsAreShort(n / 10);
    }
  }

  lemma OneDigitParses(d: nat)
    requires d < 10
    ensures ParseSize([DigitByte(d)]) == Some(d)
  {
    DigitsRoundTrip(d);
  }

  /** A token whose first length, 18446744073709551614, ends two bytes before its own field: on its own last digit. */
  function WrappingToken(user: Bytes): Bytes {
    PREFIX + Digits(WRAPPING_LENGTH) + [COLON] + (user + [ZERO, COLON])
  }

  /** The first field takes all that is left and leaves the cursor on the last digit of its own length. */
  lemma WrappingField(p: Bytes, digits: Bytes, rest: Bytes)
    requires |p + digits + [COLON] + rest| < SIZE_LIMIT && digits != [] && ParseSize(digits) == Some(WRAPPING_LENGTH)
    ensures ReadField(p + digits + [COLON] + rest, |p|) == Some(Read(rest, |p + digits| - 1))
  {
    var token := p + digits + [COLON] + rest;
    var colon := |p + digits|;
    assert token[|p|..colon] == digits && token[colon] == COLON;
    ColonAfterDigits(token, |p|, colon);
    FieldIsDeclared(token, |p|, colon + 1, WRAPPING_LENGTH);
    assert token[colon + 1..] == rest;
  }

  lemma LastDigitOn(p: Bytes, front: Bytes, rest: Bytes)
    ensures var token := p + (front + [52]) + [COLON] + rest;
            token[|p + (front + [52])| - 1..] == [52] + [COLON] + rest
  {
  }

  lemma WrappingFront(front: Bytes, user: Bytes)
    requires ParseSize(front + [52]) == Some(WRAPPING_LENGTH) && |front| < SIZE_LIMIT / 2 && |user| == 4
    ensures var token := PREFIX + (front + [52]) + [COLON] + (user + [ZERO, COLON]);
            var c1 := |PREFIX + (front + [52])| - 1;
            && |token| < SIZE_LIMIT && c1 <= |token| && ReadField(token, |PREFIX|) == Some(Read(user + [ZERO, COLON], c1))
            && token[c1..] == [52] + [COLON] + (user + [ZERO, COLON])
  {
    WrappingField(PREFIX, front + [52], user + [ZERO, COLON]);
    LastDigitOn(PREFIX, front, user + [ZERO, COLON]);
  }

  lemma WrappingBack(token: Bytes, c1: nat, user: Bytes) returns (c2: nat, c3: nat)
    requires |token| < SIZE_LIMIT && c1 <= |token| && |user| == 4
    requires token[c1..] == [52] + [COLON] + (user + [ZERO, COLON])
    ensures ReadField(token, c1) == Some(Read(user, c2)) && ReadField(token, c2) == Some(Read([], c3)) && c3 == |token|
  {
    assert [52] + [COLON] + (user + [ZERO, COLON]) == [52] + [COLON] + user + [ZERO, COLON];
    OneDigitParses(4);
    c2 := ReadsNext(token, c1, [52], user, [ZERO, COLON]);
    assert [ZERO, COLON] == [ZERO] + [COLON] + [] + [];
    OneDigitParses(0);
    c3 := ReadsNext(token, c2, [ZERO], [], []);
  }

  lemma WrappingDecodes(front: Bytes, user: Bytes)
    requires ParseSize(front + [52]) == Some(WRAPPING_LENGTH) && |front| < SIZE_LIMIT / 2 && |user| == 4
    ensures Decode(PREFIX + (front + [52]) + [COLON] + (user + [ZERO, COLON]))
         == Some(Identity(user + [ZERO, COLON], user, []))
  {
    var rest := user + [ZERO, COLON];
    var token := PREFIX + (front + [52]) + [COLON] + rest;
    var c1 := |PREFIX + (front + [52])| - 1;
    WrappingFront(front, user);
    var c2, c3 := WrappingBack(token, c1, user);
    Split(PREFIX, front + [52], [COLON], rest);
    DecodeFromIs(token, |PREFIX|, Read(rest, c1), Read(user, c2), Read([], c3));
  }

  /**
   The end of a field wraps past 2^64, so the cursor can move backwards and the fields overlap: for every
   four-byte user there is a token that is accepted with that user inside its own application service id.
   */
  lemma WrappingTokenDecodes(user: Bytes)
    requires |user| == 4
    ensures Decode(WrappingToken(user)) == Some(Identity(user + [ZERO, COLON], user, []))
  {
    DigitsParse(WRAPPING_LENGTH);
    DigitsAreShort(WRAPPING_LENGTH / 10);
    WrappingTextEndsInFour();
    WrappingDecodes(Digits(WRAPPING_LENGTH / 10), user);
  }

  // ---------------------------------------------------------------- plain fields

  /** The field at the cursor has a length without leading zero that fits in what is left of the token. */
  predicate PlainField(token: Bytes, cursor: nat) {
    var colon := FindColon(token, cursor);
    && colon.Some?
    && (var text := token[cursor..colon.value];
        && ParseSize(text).Some? && (text[0] == ZERO ==> |text| == 1)
        && colon.value + 1 + ParseSize(text).value <= |token|)
  }

  /** A plain field is read as exactly the text the encoder writes for it. */
  lemma PlainRead(token: Bytes, cursor: nat)
    requires |token| < SIZE_LIMIT && cursor <= |token| && PlainField(token, cursor)
    ensures ReadField(token, cursor).Some?
    ensures var r := ReadField(token, cursor).value;
            r.cursor == cursor + |FieldText(r.field)| && FieldText(r.field) <= token[cursor..]
  {
    var colon := FindColon(token, cursor).value;
    var text := token[cursor..colon];
    var r := ReadField(token, cursor).value;
    DigitsCanonical(text);
    assert |r.field| == DigitsValue(text) && Digits(|r.field|) == text;
    assert token[cursor..][..|FieldText(r.field)|] == FieldText(r.field);
  }

  lemma WrittenIsPlain(token: Bytes, cursor: nat, field: Bytes)
    requires |token| < SIZE_LIMIT && cursor <= |token| && FieldText(field) <= token[cursor..]
    ensures PlainField(token, cursor)
  {
    var text := Digits(|field|);
    var colon := cursor + |text|;
    DigitsParse(|field|);
    assert token[cursor..][..|FieldText(field)|] == FieldText(field);
    assert forall i :: 0 <= i < |FieldText(field)| ==> token[cursor + i] == FieldText(field)[i];
    assert token[colon] == FieldText(field)[|text|];
    assert token[cursor..colon] == text;
    ColonAfterDigits(token, cursor, colon);
  }

  /** All three fields are plain, each read where the one before ended. */
  predicate PlainFrom(token: Bytes, cursor: nat) {
    && PlainField(token, cursor)
    && (var a := ReadField(token, cursor);
        && a.Some? && PlainField(token, a.value.cursor)
        && (var u := ReadField(token, a.value.cursor);
            u.Some? && PlainField(token, u.value.cursor)))
  }

  lemma PlainFromIs(token: Bytes, cursor: nat, a: Read, u: Read)
    requires ReadField(token, cursor) == Some(a) && ReadField(token, a.cursor) == Some(u)
    ensures PlainFrom(token, cursor) <==>
            PlainField(token, cursor) && PlainField(token, a.cursor) && PlainField(token, u.cursor)
  {
  }

  lemma DecodeFromReads(token: Bytes, cursor: nat) returns (a: Read, u: Read, d: Read)
    requires DecodeFrom(token, cursor).Some?
    ensures ReadField(token, cursor) == Some(a) && ReadField(token, a.cursor) == Some(u)
    ensures ReadField(token, u.cursor) == Some(d) && d.cursor == |token|
    ensures DecodeFrom(token, cursor) == Some(Identity(a.field, u.field, d.field))
  {
    a := ReadField(token, cursor).value;
    u := ReadField(token, a.cursor).value;
    d := ReadField(token, u.cursor).value;
  }

  /** What a plain field is read as stands before the rest of the token. */
  lemma PlainPeels(token: Bytes, cursor: nat, r: Read)
    requires |token| < SIZE_LIMIT && cursor <= |token| && PlainField(token, cursor)
    requires ReadField(token, cursor) == Some(r)
    ensures r.cursor <= |token| && token[cursor..] == FieldText(r.field) + token[r.cursor..]
  {
    PlainRead(token, cursor);
    Peel(token, cursor, FieldText(r.field));
  }

  lemma PlainIsEncoded(token: Bytes, cursor: nat)
    requires |token| < SIZE_LIMIT && cursor <= |token| && DecodeFrom(token, cursor).Some? && PlainFrom(token, cursor)
    ensures var id := DecodeFrom(token, cursor).value;
            token[cursor..] == FieldText(id.appservice) + FieldText(id.user) + FieldText(id.device)
  {
    var a, u, d := DecodeFromReads(token, cursor);
    PlainFromIs(token, cursor, a, u);
    PlainPeels(token, cursor, a);
    PlainPeels(token, a.cursor, u);
    PlainPeels(token, u.cursor, d);
    assert token[d.cursor..] == [];
    Chain(FieldText(a.field), FieldText(u.field), FieldText(d.field));
  }

  lemma Peel(token: Bytes, cursor: nat, text: Bytes)
    requires cursor <= |token| && text <= token[cursor..]
    ensures token[cursor..] == text + token[cursor + |text|..]
  {
  }

  lemma Chain(a: Bytes, b: Bytes, c: Bytes)
    ensures a + (b + (c + [])) == a + b + c
  {
  }

  lemma EncodedIsPlain(token: Bytes, cursor: nat, id: Identity)
    requires |token| < SIZE_LIMIT && cursor <= |token|
    requires token[cursor..] == FieldText(id.appservice) + (FieldText(id.user) + FieldText(id.device))
    ensures PlainFrom(token, cursor)
  {
    var c1 := ReadsWritten(token, cursor, id.appservice, FieldText(id.user) + FieldText(id.device));
    var c2 := ReadsWritten(token, c1, id.user, FieldText(id.device));
    WrittenIsPlain(token, cursor, id.appservice);
    WrittenIsPlain(token, c1, id.user);
    WrittenIsPlain(token, c2, id.device);
    PlainFromIs(token, cursor, Read(id.appservice, c1), Read(id.user, c2));
  }

  /** Of the tokens that decode, exactly the plain ones are what the encoder writes for what they decode to. */
  lemma DecodedIsEncodedIffPlain(token: Bytes)
    requires |token| < SIZE_LIMIT && Decode(token).Some?
    ensures PlainFrom(token, |PREFIX|) <==> token == Encode(Decode(token).value)
  {
    var id := Decode(token).value;
    if PlainFrom(token, |PREFIX|) {
      PlainIsEncoded(token, |PREFIX|);
      Peel(token, 0, PREFIX);
      Glue(PREFIX, FieldText(id.appservice), FieldText(id.user), FieldText(id.device));
    }
    if token == Encode(id) {
      EncodeSplits(id);
      EncodedIsPlain(token, |PREFIX|, id);
    }
  }

  lemma Glue(p: Bytes, a: Bytes, b: Bytes, c: Bytes)
    ensures p + (a + b + c) == p + a + b + c
  {
  }
}
