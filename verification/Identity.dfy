/** User identifiers: the scanner of federated localparts, and the strict and the permissive validator. */
module Identity {
  import opened Prelude
  import opened Substrings
  import opened Utf8

  const NUL: byte := 0
  const COLON: byte := 58
  const AT: byte := 64

  predicate FreeOf(s: Bytes, b: byte) {
    forall i :: 0 <= i < |s| ==> s[i] != b
  }

  /** What a federated localpart may be: UTF-8 without NUL and without colon. */
  predicate FederatedLocalpart(s: Bytes) {
    Valid(s) && FreeOf(s, NUL) && FreeOf(s, COLON)
  }

  /** Reads one sequence with this scanner's own order of checks; 0 when it rejects. */
  method ScanSequence(bytes: Bytes, i: nat) returns (length: nat)
    requires i < |bytes|
    ensures length == LeadingSequence(bytes[i..])
  {
    ghost var rest := bytes[i..];
    var first := bytes[i];
    assert rest[0] == first;
    var seqLen, codePoint;
    if first < 0x80 {
      seqLen, codePoint := 1, LeadBits(first);
    } else if 0xC0 <= first < 0xE0 {
      seqLen, codePoint := 2, Bits(first, 0xC0);
    } else if 0xE0 <= first < 0xF0 {
      seqLen, codePoint := 3, Bits(first, 0xE0);
    } else if 0xF0 <= first < 0xF8 {
      seqLen, codePoint := 4, Bits(first, 0xF0);
    } else {
      return 0;
    }
    var j := 1;
    while j < seqLen
      invariant 1 <= j <= seqLen && i + j <= |bytes|
      invariant codePoint == Accumulated(rest, j)
      invariant forall k :: 1 <= k < j ==> Continuation(rest[k])
    {
      if i + j >= |bytes| {
        return 0;
      }
      var next := bytes[i + j];
      assert rest[j] == next;
      if !Continuation(next) {
        return 0;
      }
      codePoint := codePoint * 64 + Bits(next, 0x80);
      j := j + 1;
    }
    if seqLen == 2 && codePoint < 0x80 {
      return 0;
    }
    if seqLen == 3 && codePoint < 0x800 {
      return 0;
    }
    if seqLen == 4 && codePoint < 0x10000 {
      return 0;
    }
    if 0xD800 <= codePoint <= 0xDFFF {
      return 0;
    }
    if codePoint > 0x10FFFF {
      return 0;
    }
    return seqLen;
  }

  /** An accepted sequence holds NUL or colon only as its single byte. */
  lemma SequenceFreeOf(s: Bytes, b: byte)
    requires s != [] && LeadingSequence(s) > 0 && b < 0x80
    ensures FreeOf(s[..LeadingSequence(s)], b) <==> s[0] != b
  {
    var n := LeadingSequence(s);
    assert forall i :: 1 <= i < n ==> Continuation(s[i]);
    assert s[..n][0] == s[0];
  }

  lemma FreeOfSplit(s: Bytes, n: nat, b: byte)
    requires n <= |s|
    ensures FreeOf(s, b) <==> FreeOf(s[..n], b) && FreeOf(s[n..], b)
  {
    assert s == s[..n] + s[n..];
    assert forall i :: 0 <= i < n ==> s[i] == s[..n][i];
    assert forall i :: n <= i < |s| ==> s[i] == s[n..][i - n];
  }

  /** One accepted sequence off the front. */
  lemma LocalpartStep(s: Bytes)
    requires s != []
    ensures FederatedLocalpart(s) <==>
            && s[0] != NUL && s[0] != COLON && LeadingSequence(s) > 0
            && FederatedLocalpart(s[LeadingSequence(s)..])
  {
    var n := LeadingSequence(s);
    if n > 0 {
      SequenceFreeOf(s, NUL);
      SequenceFreeOf(s, COLON);
      FreeOfSplit(s, n, NUL);
      FreeOfSplit(s, n, COLON);
    }
  }

  /** The scanner accepts exactly what the JSON validator accepts, less NUL and colon. */
  method IsFederatedLocalpart(bytes: Bytes) returns (ok: bool)
    ensures ok <==> Valid(bytes) && FreeOf(bytes, NUL) && FreeOf(bytes, COLON)
  {
    var i := 0;
    assert bytes[0..] == bytes;
    while i < |bytes|
      invariant 0 <= i <= |bytes|
      invariant FederatedLocalpart(bytes) <==> FederatedLocalpart(bytes[i..])
    {
      LocalpartStep(bytes[i..]);
      if bytes[i] == NUL || bytes[i] == COLON {
        return false;
      }
      var length := ScanSequence(bytes, i);
      if length == 0 {
        return false;
      }
      assert bytes[i..][length..] == bytes[i + length..];
      i := i + length;
    }
    return true;
  }

  // ---------------------------------------------------------------- user identifiers

  /** The characters of the localparts this server gives out. */
  predicate LocalpartCharacter(b: byte) {
    b < 128 && var c := b as char; 'a' <= c <= 'z' || '0' <= c <= '9' || c in "._-=/+"
  }

  lemma LocalpartCharacters(b: byte)
    ensures NewLocalpartByte(b) <==> LocalpartCharacter(b)
  {
    assert '.' == "._-=/+"[0] && '_' == "._-=/+"[1] && '-' == "._-=/+"[2];
    assert '=' == "._-=/+"[3] && '/' == "._-=/+"[4] && '+' == "._-=/+"[5];
    if b < 128 && (b as char) in "._-=/+" {
      var c := b as char;
      assert c == '.' || c == '_' || c == '-' || c == '=' || c == '/' || c == '+';
    }
  }

  predicate NewLocalpartByte(b: byte) {
    97 <= b <= 122 || 48 <= b <= 57 || b in [46, 95, 45, 61, 47, 43]
  }

  predicate NewLocalpart(s: Bytes) {
    s != [] && |s| <= 255 && forall i :: 0 <= i < |s| ==> NewLocalpartByte(s[i])
  }

  /** The strict validator of registration and local sign-in. */
  predicate UserIdIsValid(id: Bytes, serverNameIsValid: Bytes -> bool) {
    && 4 <= |id| <= 255 && id[0] == AT
    && (var separator := FirstIndex(COLON, id);
        && separator < |id| && separator > 1 && separator + 1 < |id|
        && NewLocalpart(id[1..separator]) && serverNameIsValid(id[separator + 1..]))
  }

  /** The permissive validator of inbound federation. */
  predicate UserIdIsValidFederated(id: Bytes, serverNameIsValid: Bytes -> bool) {
    && id != [] && |id| <= 255 && id[0] == AT
    && (var separator := FirstIndex(COLON, id);
        && separator < |id| && separator + 1 < |id|
        && FederatedLocalpart(id[1..separator]) && serverNameIsValid(id[separator + 1..]))
  }

  lemma {:induction false} AsciiIsValid(s: Bytes)
    requires forall i :: 0 <= i < |s| ==> s[i] < 0x80
    ensures Valid(s)
  {
    if s != [] {
      assert LeadingSequence(s) == 1;
      AsciiIsValid(s[1..]);
    }
  }

  /** Every user identifier the strict validator accepts, the permissive one accepts too. */
  lemma StrictIsFederated(id: Bytes, serverNameIsValid: Bytes -> bool)
    requires UserIdIsValid(id, serverNameIsValid)
    ensures UserIdIsValidFederated(id, serverNameIsValid)
  {
    var localpart := id[1..FirstIndex(COLON, id)];
    assert forall i :: 0 <= i < |localpart| ==> NewLocalpartByte(localpart[i]);
    AsciiIsValid(localpart);
  }

  lemma SplitsAtColon(id: Bytes, localpart: Bytes, server: Bytes)
    requires id == Ascii("@") + localpart + Ascii(":") + server && forall b :: b in localpart ==> [b] != Ascii(":")
    ensures id[0] == AT && FirstIndex(COLON, id) == 1 + |localpart|
    ensures id[1..1 + |localpart|] == localpart && id[2 + |localpart|..] == server
  {
    var n := FirstIndex(COLON, id);
    var m := 1 + |localpart|;
    assert Ascii("@") == [AT] && Ascii(":") == [COLON];
    assert id[m] == COLON && id[0] == AT;
    forall i | 1 <= i < m ensures id[i] != COLON {
      assert id[i] == localpart[i - 1] && localpart[i - 1] in localpart;
    }
    assert n == m;
  }

  /**
   What the permissive validator accepts, said without a search: an at sign, a localpart of UTF-8 without
   NUL and a server name parted by a colon. The split is unique because the localpart holds no colon.
   */
  lemma FederatedUserIdShape(id: Bytes, localpart: Bytes, server: Bytes, serverNameIsValid: Bytes -> bool)
    requires id == Ascii("@") + localpart + Ascii(":") + server && forall b :: b in localpart ==> [b] != Ascii(":")
    ensures UserIdIsValidFederated(id, serverNameIsValid) <==>
            Valid(localpart) && 0 !in localpart && server != [] && serverNameIsValid(server) && |id| <= 255
  {
    SplitsAtColon(id, localpart, server);
    assert Ascii(":") == [COLON];
    assert FreeOf(localpart, NUL) <==> 0 !in localpart;
    assert FreeOf(localpart, COLON);
  }

  /** The strict validator asks for the same shape with a localpart of its own characters, and not an empty one. */
  lemma StrictUserIdShape(id: Bytes, localpart: Bytes, server: Bytes, serverNameIsValid: Bytes -> bool)
    requires id == Ascii("@") + localpart + Ascii(":") + server && forall b :: b in localpart ==> [b] != Ascii(":")
    ensures UserIdIsValid(id, serverNameIsValid) <==>
            && localpart != [] && (forall b :: b in localpart ==> LocalpartCharacter(b))
            && server != [] && serverNameIsValid(server) && |id| <= 255
  {
    SplitsAtColon(id, localpart, server);
    forall b ensures NewLocalpartByte(b) <==> LocalpartCharacter(b) {
      LocalpartCharacters(b);
    }
    assert (forall b :: b in localpart ==> NewLocalpartByte(b))
      <==> (forall i :: 0 <= i < |localpart| ==> NewLocalpartByte(localpart[i]));
  }

  /** Neither accepts anything else. */
  lemma AcceptedHasShape(id: Bytes, serverNameIsValid: Bytes -> bool) returns (localpart: Bytes, server: Bytes)
    requires UserIdIsValidFederated(id, serverNameIsValid)
    ensures id == Ascii("@") + localpart + Ascii(":") + server && forall b :: b in localpart ==> [b] != Ascii(":")
  {
    var n := FirstIndex(COLON, id);
    localpart, server := id[1..n], id[n + 1..];
    assert Ascii("@") == [AT] && Ascii(":") == [COLON];
  }
}
