/** Percent-coding of path components and query values (sections 2.1 and 2.3 of RFC 3986). */
module QueryParams {
  import opened Prelude
  import opened Substrings

  const PERCENT: byte := 37
  const PLUS: byte := 43
  const SPACE: byte := 32

  function FromHex(b: byte): Option<int> {
    if 48 <= b <= 57 then Some(b - 48)
    else if 97 <= b <= 102 then Some(b - 97 + 10)
    else if 65 <= b <= 70 then Some(b - 65 + 10)
    else None
  }

  function HexDigit(nibble: int): byte
    requires 0 <= nibble < 16
  {
    if nibble < 10 then 48 + nibble else 65 + (nibble - 10)
  }

  predicate Unreserved(b: byte) {
    65 <= b <= 90 || 97 <= b <= 122 || 48 <= b <= 57 || b in [45, 46, 95, 126]
  }

  function EncodeByte(b: byte): (r: Bytes)
    ensures |r| == 1 || |r| == 3
  {
    if Unreserved(b) then [b] else [PERCENT, HexDigit(b / 16), HexDigit(b % 16)]
  }

  function Encode(s: Bytes): Bytes {
    if s == [] then [] else EncodeByte(s[0]) + Encode(s[1..])
  }

  /** Whether a well-formed escape starts the text. */
  predicate EscapeLeads(s: Bytes) {
    |s| >= 3 && s[0] == PERCENT && FromHex(s[1]).Some? && FromHex(s[2]).Some?
  }

  function EscapedByte(s: Bytes): byte
    requires EscapeLeads(s)
  {
    FromHex(s[1]).value * 16 + FromHex(s[2]).value
  }

  /** The byte a decoder takes next and how much text it spends on it. */
  function DecodeStep(s: Bytes, plusIsSpace: bool): (step: (byte, nat))
    requires s != []
    ensures 1 <= step.1 <= |s|
  {
    if EscapeLeads(s) then (EscapedByte(s), 3)
    else if s[0] == PLUS && plusIsSpace then (SPACE, 1)
    else (s[0], 1)
  }

  /** Malformed escapes stay as they are; in a query a plus is a space. */
  function Decode(s: Bytes, plusIsSpace: bool): Bytes
    decreases |s|
  {
    if s == [] then []
    else
      var (b, n) := DecodeStep(s, plusIsSpace);
      [b] + Decode(s[n..], plusIsSpace)
  }

  // ---------------------------------------------------------------- the loops

  /** One round of the decoding loop: the byte to push and how far to advance. */
  method TakeByte(encoded: Bytes, i: nat, plusIsSpace: bool) returns (b: byte, n: nat)
    requires i < |encoded|
    ensures (b, n) == DecodeStep(encoded[i..], plusIsSpace)
  {
    ghost var rest := encoded[i..];
    assert forall k :: 0 <= k < |rest| ==> rest[k] == encoded[i + k];
    if encoded[i] == PERCENT && i + 2 < |encoded| {
      var high := FromHex(encoded[i + 1]);
      var low := FromHex(encoded[i + 2]);
      if high.Some? && low.Some? {
        return high.value * 16 + low.value, 3;
      }
      return encoded[i], 1;
    } else if encoded[i] == PLUS && plusIsSpace {
      return SPACE, 1;
    }
    return encoded[i], 1;
  }

  lemma DecodeUnfolds(encoded: Bytes, i: nat, plusIsSpace: bool)
    requires i < |encoded|
    ensures var step := DecodeStep(encoded[i..], plusIsSpace);
            i + step.1 <= |encoded|
            && Decode(encoded[i..], plusIsSpace) == [step.0] + Decode(encoded[i + step.1..], plusIsSpace)
  {
    var n := DecodeStep(encoded[i..], plusIsSpace).1;
    assert encoded[i..][n..] == encoded[i + n..];
  }

  method DecodeAll(encoded: Bytes, plusIsSpace: bool) returns (result: Bytes)
    ensures result == Decode(encoded, plusIsSpace)
  {
    result := [];
    var i := 0;
    assert encoded[0..] == encoded;
    ghost var whole := Decode(encoded, plusIsSpace);
    ghost var left := whole;
    while i < |encoded|
      invariant 0 <= i <= |encoded|
      invariant left == Decode(encoded[i..], plusIsSpace) && whole == result + left
    {
      DecodeUnfolds(encoded, i, plusIsSpace);
      var b, n := TakeByte(encoded, i, plusIsSpace);
      left := Decode(encoded[i + n..], plusIsSpace);
      Shift(result, b, left);
      result := result + [b];
      i := i + n;
    }
  }

  const ENCODED_NUL: Bytes := [PERCENT, 48, 48]

  predicate ContainsNul(s: Bytes) {
    exists i :: 0 <= i < |s| && s[i] == 0
  }

  /** The early check on the text still encoded. */
  predicate PathComponentContainsNul(encoded: Bytes) {
    ContainsNul(encoded) || Occurs(ENCODED_NUL, encoded)
  }

  /** None is the exception the decoder throws: exactly when the decoded text would hold NUL. */
  method PercentDecodePathComponent(encoded: Bytes) returns (result: Option<Bytes>)
    ensures result == if ContainsNul(Decode(encoded, false)) then None else Some(Decode(encoded, false))
  {
    NulIsSeenEarly(encoded);
    if PathComponentContainsNul(encoded) {
      return None;
    }
    var decoded := DecodeAll(encoded, false);
    if ContainsNul(decoded) {
      return None;
    }
    return Some(decoded);
  }

  lemma EncodeUnfolds(decoded: Bytes, i: nat)
    requires i < |decoded|
    ensures Encode(decoded[i..]) == EncodeByte(decoded[i]) + Encode(decoded[i + 1..])
  {
    assert decoded[i..][1..] == decoded[i + 1..];
  }

  lemma ShiftAll(done: Bytes, some: Bytes, left: Bytes)
    ensures done + (some + left) == done + some + left
  {
  }

  method PercentEncodePathComponent(decoded: Bytes) returns (result: Bytes)
    ensures result == Encode(decoded)
  {
    result := [];
    var i := 0;
    assert decoded[0..] == decoded;
    ghost var whole := Encode(decoded);
    ghost var left := whole;
    while i < |decoded|
      invariant 0 <= i <= |decoded|
      invariant left == Encode(decoded[i..]) && whole == result + left
    {
      var b := decoded[i];
      EncodeUnfolds(decoded, i);
      left := Encode(decoded[i + 1..]);
      ShiftAll(result, EncodeByte(b), left);
      if Unreserved(b) {
        result := result + [b];
      } else {
        result := result + [PERCENT, HexDigit(b / 16), HexDigit(b % 16)];
      }
      i := i + 1;
    }
  }

  // ---------------------------------------------------------------- which bytes and digits

  /** The unreserved characters of section 2.3 of RFC 3986. */
  predicate UnreservedCharacter(b: byte) {
    b < 128 && var c := b as char; 'A' <= c <= 'Z' || 'a' <= c <= 'z' || '0' <= c <= '9' || c in "-._~"
  }

  lemma EncodeOne(b: byte)
    ensures Encode([b]) == EncodeByte(b)
  {
    assert [b][1..] == [] && EncodeByte(b) + [] == EncodeByte(b);
  }

  /** A byte is left as it stands exactly when it is an unreserved character. */
  lemma UnreservedStay(b: byte)
    ensures Encode([b]) == [b] <==> UnreservedCharacter(b)
  {
    EncodeOne(b);
    UnreservedIs(b);
  }

  lemma UnreservedIs(b: byte)
    ensures Unreserved(b) <==> UnreservedCharacter(b)
  {
    if b < 128 && (b as char) in "-._~" {
      assert b as char == '-' || b as char == '.' || b as char == '_' || b as char == '~';
    }
    assert '-' == "-._~"[0] && '.' == "-._~"[1] && '_' == "-._~"[2] && '~' == "-._~"[3];
  }

  /** A hexadecimal digit is read in both cases. */
  lemma HexDigitsRead(v: nat)
    requires v < 16
    ensures FromHex(Ascii("0123456789abcdef")[v]) == Some(v) && FromHex(Ascii("0123456789ABCDEF")[v]) == Some(v)
  {
  }

  lemma NothingElseIsHex(b: byte)
    requires FromHex(b).Some?
    ensures exists v :: 0 <= v < 16 && (b == Ascii("0123456789abcdef")[v] || b == Ascii("0123456789ABCDEF")[v])
  {
    var v := FromHex(b).value;
    assert 0 <= v < 16;
    assert b == Ascii("0123456789abcdef")[v] || b == Ascii("0123456789ABCDEF")[v];
  }

  /** Any other byte becomes a percent sign and its two digits, in upper case. */
  lemma ReservedEscape(b: byte)
    requires !UnreservedCharacter(b)
    ensures Encode([b]) == Ascii("%") + [Ascii("0123456789ABCDEF")[b / 16], Ascii("0123456789ABCDEF")[b % 16]]
  {
    UnreservedIs(b);
    EncodeOne(b);
    UpperHex(b / 16);
    UpperHex(b % 16);
  }

  lemma UpperHex(v: nat)
    requires v < 16
    ensures HexDigit(v) == Ascii("0123456789ABCDEF")[v]
  {
  }

  /** A query reads a plus as a space; a path does not. */
  lemma PlusIsSpace(s: Bytes)
    ensures Decode(Ascii("+") + s, true) == Ascii(" ") + Decode(s, true)
    ensures Decode(Ascii("+") + s, false) == Ascii("+") + Decode(s, false)
  {
    assert (Ascii("+") + s)[1..] == s && (Ascii("+") + s)[0] == 43;
  }

  // ---------------------------------------------------------------- decoding undoes encoding

  lemma DecodePlainByte(b: byte, rest: Bytes, plusIsSpace: bool)
    requires Unreserved(b)
    ensures Decode([b] + rest, plusIsSpace) == [b] + Decode(rest, plusIsSpace)
  {
    assert ([b] + rest)[1..] == rest;
  }

  lemma HexReadsBack(nibble: int)
    requires 0 <= nibble < 16
    ensures FromHex(HexDigit(nibble)) == Some(nibble)
  {
  }

  lemma DecodeEscape(high: byte, low: byte, rest: Bytes, plusIsSpace: bool)
    requires FromHex(high).Some? && FromHex(low).Some?
    ensures Decode([PERCENT, high, low] + rest, plusIsSpace)
         == [FromHex(high).value * 16 + FromHex(low).value] + Decode(rest, plusIsSpace)
  {
    var s := [PERCENT, high, low] + rest;
    assert s[0] == PERCENT && s[1] == high && s[2] == low && s[3..] == rest;
  }

  lemma DecodeEncodedByte(b: byte, rest: Bytes, plusIsSpace: bool)
    ensures Decode(EncodeByte(b) + rest, plusIsSpace) == [b] + Decode(rest, plusIsSpace)
  {
    if Unreserved(b) {
      DecodePlainByte(b, rest, plusIsSpace);
    } else {
      HexReadsBack(b / 16);
      HexReadsBack(b % 16);
      DecodeEscape(HexDigit(b / 16), HexDigit(b % 16), rest, plusIsSpace);
    }
  }

  /** Both decoders undo the encoder on every byte string. */
  lemma {:induction false} DecodeUndoesEncode(s: Bytes, plusIsSpace: bool)
    ensures Decode(Encode(s), plusIsSpace) == s
  {
    if s != [] {
      DecodeEncodedByte(s[0], Encode(s[1..]), plusIsSpace);
      DecodeUndoesEncode(s[1..], plusIsSpace);
    }
  }

  // ---------------------------------------------------------------- the early NUL check is exact

  lemma NulCons(b: byte, s: Bytes)
    ensures ContainsNul([b] + s) <==> b == 0 || ContainsNul(s)
  {
    if b == 0 {
      assert ([b] + s)[0] == 0;
    }
    if i :| 0 <= i < |s| && s[i] == 0 {
      assert ([b] + s)[i + 1] == 0;
    }
  }

  lemma TailContainsNul(s: Bytes)
    requires s != []
    ensures PathComponentContainsNul(s) <==>
            s[0] == 0 || OccursAt(ENCODED_NUL, s, 0) || PathComponentContainsNul(s[1..])
  {
    assert s == [s[0]] + s[1..];
    NulCons(s[0], s[1..]);
    if i :| 0 <= i <= |s| && OccursAt(ENCODED_NUL, s, i) {
      if i > 0 {
        assert s[1..][i - 1..i - 1 + 3] == s[i..i + 3];
        assert OccursAt(ENCODED_NUL, s[1..], i - 1);
      }
    }
    if i :| 0 <= i <= |s[1..]| && OccursAt(ENCODED_NUL, s[1..], i) {
      assert s[1..][i..i + 3] == s[i + 1..i + 4];
      assert OccursAt(ENCODED_NUL, s, i + 1);
    }
  }

  /** An encoded NUL never straddles another escape: the two bytes after a percent sign are hex digits. */
  lemma EscapeTail(s: Bytes)
    requires EscapeLeads(s)
    ensures PathComponentContainsNul(s) <==> EscapedByte(s) == 0 || PathComponentContainsNul(s[3..])
  {
    TailContainsNul(s);
    TailContainsNul(s[1..]);
    TailContainsNul(s[2..]);
    assert s[1..][1..] == s[2..] && s[2..][1..] == s[3..];
    assert OccursAt(ENCODED_NUL, s, 0) <==> s[1] == 48 && s[2] == 48 by {
      assert s[0..3] == [s[0], s[1], s[2]];
    }
    assert !OccursAt(ENCODED_NUL, s[1..], 0) by {
      assert |s[1..]| >= 3 ==> s[1..][0..3][0] == s[1];
    }
    assert !OccursAt(ENCODED_NUL, s[2..], 0) by {
      assert |s[2..]| >= 3 ==> s[2..][0..3][0] == s[2];
    }
  }

  lemma PlainTail(s: Bytes)
    requires s != [] && !EscapeLeads(s)
    ensures PathComponentContainsNul(s) <==> s[0] == 0 || PathComponentContainsNul(s[1..])
  {
    TailContainsNul(s);
    if |s| >= 3 {
      assert s[0..3] == [s[0], s[1], s[2]];
    }
  }

  /** Looking for NUL before decoding finds exactly what looking for it afterwards would. */
  lemma {:induction false} NulIsSeenEarly(s: Bytes)
    ensures PathComponentContainsNul(s) <==> ContainsNul(Decode(s, false))
    decreases |s|
  {
    if s == [] {
    } else if EscapeLeads(s) {
      EscapeTail(s);
      NulIsSeenEarly(s[3..]);
      NulCons(EscapedByte(s), Decode(s[3..], false));
    } else {
      PlainTail(s);
      NulIsSeenEarly(s[1..]);
      NulCons(s[0], Decode(s[1..], false));
    }
  }
}
