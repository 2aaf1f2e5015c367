/**
 UTF-8 as section 3 of RFC 3629 defines it, the validator of the JSON parser, and why sorting keys
 by bytes sorts them by code point. The source tests and extracts bits with masks; here a mask test
 is the range of bytes that pass it (MasksAreRanges).
 */
module Utf8 {
  import opened Prelude
  import opened ByteOrder

  predicate Scalar(cp: int) {
    0 <= cp <= 0x10FFFF && !(0xD800 <= cp <= 0xDFFF)
  }

  /** How many bytes RFC 3629 gives a code point. */
  function EncodedLength(cp: int): nat {
    if cp < 0x80 then 1 else if cp < 0x800 then 2 else if cp < 0x10000 then 3 else 4
  }

  predicate Continuation(b: byte) {
    0x80 <= b < 0xC0
  }

  /** What is left of a byte without its marker bits. */
  function Bits(b: byte, marker: int): int {
    var value: int := b;
    value - marker
  }

  /** `b` is the UTF-8 form of `cp`: the shortest one, each byte carrying its share of the bits. */
  predicate Encodes(cp: int, b: Bytes) {
    && Scalar(cp)
    && |b| == EncodedLength(cp)
    && (forall i :: 1 <= i < |b| ==> Continuation(b[i]))
    && (|b| == 1 ==> cp == b[0])
    && (|b| == 2 ==> 0xC0 <= b[0] < 0xE0 && cp == Bits(b[0], 0xC0) * 64 + Bits(b[1], 0x80))
    && (|b| == 3 ==> 0xE0 <= b[0] < 0xF0 && cp == Bits(b[0], 0xE0) * 4096 + Bits(b[1], 0x80) * 64 + Bits(b[2], 0x80))
    && (|b| == 4 ==> 0xF0 <= b[0] < 0xF8)
    && (|b| == 4 ==> cp == Bits(b[0], 0xF0) * 262144 + Bits(b[1], 0x80) * 4096 + Bits(b[2], 0x80) * 64 + Bits(b[3], 0x80))
  }

  /** `s` is the UTF-8 form of the code points, one after another. */
  predicate EncodesAll(cps: seq<int>, s: Bytes) {
    if cps == [] then s == []
    else
      var n := EncodedLength(cps[0]);
      n <= |s| && Encodes(cps[0], s[..n]) && EncodesAll(cps[1..], s[n..])
  }

  /** The bytes section 3 of RFC 3629 gives a scalar value: its bits in groups of six, lowest last. */
  function Encoded(cp: int): Bytes
    requires 0 <= cp <= 0x10FFFF
  {
    var b := cp / 64;
    var c := b / 64;
    var d := c / 64;
    if cp <= 0x7F then [cp]
    else if cp <= 0x7FF then [0xC0 + b, 0x80 + cp % 64]
    else if cp <= 0xFFFF then [0xE0 + c, 0x80 + b % 64, 0x80 + cp % 64]
    else [0xF0 + d, 0x80 + c % 64, 0x80 + b % 64, 0x80 + cp % 64]
  }

  /** A scalar value, and no surrogate, is encoded by exactly those bytes. */
  lemma EncodesIsTable(cp: int, s: Bytes)
    ensures Encodes(cp, s) <==> 0 <= cp <= 0x10FFFF && !(0xD800 <= cp <= 0xDFFF) && s == Encoded(cp)
  {
    if 0 <= cp <= 0x10FFFF && !(0xD800 <= cp <= 0xDFFF) {
      TableEncodes(cp);
      if Encodes(cp, s) {
        SameEncoding(cp, s, Encoded(cp));
      }
    }
  }

  lemma Groups(n: nat) returns (q: nat, r: nat)
    ensures q == n / 64 && r == n % 64 && n == q * 64 + r && r < 64
  {
    q, r := n / 64, n % 64;
  }

  lemma TableEncodes(cp: int)
    requires 0 <= cp <= 0x10FFFF && !(0xD800 <= cp <= 0xDFFF)
    ensures Encodes(cp, Encoded(cp))
  {
    var b, r := Groups(cp);
    var c, t := Groups(b);
    var d, u := Groups(c);
    if cp > 0xFFFF {
      assert cp == d * 262144 + u * 4096 + t * 64 + r;
    } else if cp > 0x7FF {
      assert cp == c * 4096 + t * 64 + r;
    }
  }

  lemma MasksAreRanges(b: bv8)
    ensures (b & 0xE0) == 0xC0 <==> 0xC0 <= b <= 0xDF
    ensures (b & 0xF0) == 0xE0 <==> 0xE0 <= b <= 0xEF
    ensures (b & 0xF8) == 0xF0 <==> 0xF0 <= b <= 0xF7
    ensures (b & 0xC0) == 0x80 <==> 0x80 <= b <= 0xBF
    ensures 0xC0 <= b <= 0xDF ==> (b & 0x1F) == b - 0xC0
    ensures 0xE0 <= b <= 0xEF ==> (b & 0x0F) == b - 0xE0
    ensures 0xF0 <= b <= 0xF7 ==> (b & 0x07) == b - 0xF0
    ensures 0x80 <= b <= 0xBF ==> (b & 0x3F) == b - 0x80
  {
  }

  // ---------------------------------------------------------------- one step of the validator

  /** How many bytes the lead byte announces; 0 when it cannot lead a sequence. */
  function SequenceLength(first: byte): nat {
    if first <= 0x7F then 1
    else if 0xC0 <= first < 0xE0 then 2
    else if 0xE0 <= first < 0xF0 then 3
    else if 0xF0 <= first < 0xF8 then 4
    else 0
  }

  /** The code point bits of the lead byte. */
  function LeadBits(first: byte): int {
    if first <= 0x7F then first
    else if first < 0xE0 then Bits(first, 0xC0)
    else if first < 0xF0 then Bits(first, 0xE0)
    else Bits(first, 0xF0)
  }

  function LeastCodePoint(length: nat): int {
    if length <= 1 then 0 else if length == 2 then 0x80 else if length == 3 then 0x800 else 0x10000
  }

  /** The code point so far after the lead byte and the first `n - 1` continuation bytes. */
  function Accumulated(s: Bytes, n: nat): int
    requires 1 <= n <= |s|
  {
    if n == 1 then LeadBits(s[0]) else Accumulated(s, n - 1) * 64 + Bits(s[n - 1], 0x80)
  }

  /** The sequence at the start of `s`: its length, or 0 when the validator rejects it. */
  function LeadingSequence(s: Bytes): (n: nat)
    requires s != []
    ensures n <= |s|
  {
    var length := SequenceLength(s[0]);
    if length == 0 || length > |s| then 0
    else if exists i :: 1 <= i < length && !Continuation(s[i]) then 0
    else
      var cp := Accumulated(s, length);
      if cp < LeastCodePoint(length) || cp > 0x10FFFF || 0xD800 <= cp <= 0xDFFF then 0 else length
  }

  /** What the validator accepts. */
  predicate Valid(s: Bytes) {
    s == [] || (LeadingSequence(s) > 0 && Valid(s[LeadingSequence(s)..]))
  }

  /** The body of the accepting loop: checks the sequence that starts at `index`. */
  method CheckSequence(value: Bytes, index: nat) returns (length: nat)
    requires index < |value|
    ensures length == LeadingSequence(value[index..])
  {
    ghost var rest := value[index..];
    var first := value[index];
    length := SequenceLength(first);
    if length == 0 || index + length > |value| {
      return 0;
    }
    var codepoint := LeadBits(first);
    var offset := 1;
    while offset < length
      invariant 1 <= offset <= length
      invariant codepoint == Accumulated(rest, offset)
      invariant forall i :: 1 <= i < offset ==> Continuation(rest[i])
    {
      var next := value[index + offset];
      assert rest[offset] == next;
      if !Continuation(next) {
        return 0;
      }
      codepoint := codepoint * 64 + Bits(next, 0x80);
      offset := offset + 1;
    }
    if codepoint < LeastCodePoint(length) || codepoint > 0x10FFFF || 0xD800 <= codepoint <= 0xDFFF {
      return 0;
    }
  }

  lemma ValidStep(value: Bytes, index: nat, length: nat)
    requires index < |value| && 0 < length == LeadingSequence(value[index..])
    ensures index + length <= |value| && (Valid(value[index..]) <==> Valid(value[index + length..]))
  {
    assert value[index..][length..] == value[index + length..];
  }

  /** The accepting loop of the JSON parser: it accepts exactly the encodings of code point sequences. */
  method IsValid(value: Bytes) returns (ok: bool)
    ensures ok <==> Valid(value)
    ensures ok <==> exists cps :: EncodesAll(cps, value)
  {
    ValidIsEncoded(value);
    var index := 0;
    while index < |value|
      invariant 0 <= index <= |value|
      invariant Valid(value) <==> Valid(value[index..])
    {
      var length := CheckSequence(value, index);
      if length == 0 {
        return false;
      }
      ValidStep(value, index, length);
      index := index + length;
    }
    return true;
  }

  // ---------------------------------------------------------------- accepted means encoded

  lemma AccumulatedUnfolds(s: Bytes, n: nat)
    requires 1 <= n <= |s| && n <= 4
    ensures Accumulated(s, n) ==
            if n == 1 then LeadBits(s[0])
            else if n == 2 then LeadBits(s[0]) * 64 + Bits(s[1], 0x80)
            else if n == 3 then LeadBits(s[0]) * 4096 + Bits(s[1], 0x80) * 64 + Bits(s[2], 0x80)
            else LeadBits(s[0]) * 262144 + Bits(s[1], 0x80) * 4096 + Bits(s[2], 0x80) * 64 + Bits(s[3], 0x80)
  {
    assert Accumulated(s, 1) == LeadBits(s[0]);
    if n >= 2 { assert Accumulated(s, 2) == Accumulated(s, 1) * 64 + Bits(s[1], 0x80); }
    if n >= 3 { assert Accumulated(s, 3) == Accumulated(s, 2) * 64 + Bits(s[2], 0x80); }
    if n >= 4 { assert Accumulated(s, 4) == Accumulated(s, 3) * 64 + Bits(s[3], 0x80); }
  }

  /** A leading sequence that is accepted is the encoding of the code point it accumulates. */
  lemma LeadingIsEncoding(s: Bytes)
    requires s != [] && LeadingSequence(s) > 0
    ensures var n := LeadingSequence(s); Encodes(Accumulated(s, n), s[..n])
  {
    AccumulatedUnfolds(s, LeadingSequence(s));
  }

  lemma EncodingIsLeading(cp: int, s: Bytes)
    requires EncodedLength(cp) <= |s| && Encodes(cp, s[..EncodedLength(cp)])
    ensures LeadingSequence(s) == EncodedLength(cp)
    ensures Accumulated(s, EncodedLength(cp)) == cp
  {
    var n := EncodedLength(cp);
    var b := s[..n];
    assert forall i :: 0 <= i < n ==> s[i] == b[i];
    AccumulatedUnfolds(s, n);
  }

  /** The code points of accepted bytes. */
  ghost function Decode(s: Bytes): (cps: seq<int>)
    requires Valid(s)
  {
    if s == [] then []
    else [Accumulated(s, LeadingSequence(s))] + Decode(s[LeadingSequence(s)..])
  }

  lemma {:induction false} ValidDecodes(s: Bytes)
    requires Valid(s)
    ensures EncodesAll(Decode(s), s)
  {
    if s != [] {
      var n := LeadingSequence(s);
      LeadingIsEncoding(s);
      ValidDecodes(s[n..]);
      assert Decode(s)[1..] == Decode(s[n..]);
    }
  }

  lemma {:induction false} EncodedIsValid(cps: seq<int>, s: Bytes)
    requires EncodesAll(cps, s)
    ensures Valid(s) && Decode(s) == cps
  {
    if cps != [] {
      EncodingIsLeading(cps[0], s);
      EncodedIsValid(cps[1..], s[EncodedLength(cps[0])..]);
    }
  }

  lemma ValidExistsEncoded(s: Bytes)
    requires Valid(s)
    ensures exists cps :: EncodesAll(cps, s)
  {
    ValidDecodes(s);
    var cps := Decode(s);
    assert EncodesAll(cps, s);
  }

  lemma EncodedExistsValid(s: Bytes)
    requires exists cps :: EncodesAll(cps, s)
    ensures Valid(s)
  {
    var cps :| EncodesAll(cps, s);
    EncodedIsValid(cps, s);
  }

  /** The validator accepts exactly the encodings of code point sequences. */
  lemma ValidIsEncoded(s: Bytes)
    ensures Valid(s) <==> exists cps :: EncodesAll(cps, s)
  {
    if Valid(s) {
      ValidExistsEncoded(s);
    } else if exists cps :: EncodesAll(cps, s) {
      EncodedExistsValid(s);
    }
  }

  // ---------------------------------------------------------------- byte order is code point order

  /** A smaller code point has a smaller byte where the encodings first differ. */
  lemma SmallerEncoding(c: int, d: int, a: Bytes, b: Bytes)
    requires Encodes(c, a) && Encodes(d, b) && c < d
    ensures exists i :: 0 <= i < |a| && i < |b| && a[..i] == b[..i] && a[i] < b[i]
  {
    if a[0] < b[0] {
      assert a[..0] == b[..0];
    } else if a[1] < b[1] {
      assert a[..1] == b[..1];
    } else if a[2] < b[2] {
      assert a[..2] == b[..2];
    } else {
      assert a[..3] == b[..3];
    }
  }

  lemma LexLessByDifference(s: Bytes, t: Bytes, i: nat)
    requires i < |s| && i < |t| && s[..i] == t[..i] && s[i] < t[i]
    ensures LexLess(s, t)
  {
    assert s == s[..i] + s[i..] && t == s[..i] + t[i..];
    LexCommonPrefix(s[..i], s[i..], t[i..]);
  }

  lemma SmallerPrefix(s: Bytes, t: Bytes, n: nat, m: nat, i: nat)
    requires i < n <= |s| && i < m <= |t| && s[..n][..i] == t[..m][..i] && s[..n][i] < t[..m][i]
    ensures LexLess(s, t)
  {
    assert s[..n][..i] == s[..i] && t[..m][..i] == t[..i];
    LexLessByDifference(s, t, i);
  }

  lemma SmallerLead(s: Bytes, t: Bytes)
    requires s != [] && t != [] && Valid(s) && Valid(t) && Decode(s)[0] < Decode(t)[0]
    ensures LexLess(s, t)
  {
    var n, m := LeadingSequence(s), LeadingSequence(t);
    LeadingIsEncoding(s);
    LeadingIsEncoding(t);
    SmallerEncoding(Decode(s)[0], Decode(t)[0], s[..n], t[..m]);
    var i :| 0 <= i < n && i < m && s[..n][..i] == t[..m][..i] && s[..n][i] < t[..m][i];
    SmallerPrefix(s, t, n, m, i);
  }

  lemma SameLead(s: Bytes, t: Bytes)
    requires s != [] && t != [] && Valid(s) && Valid(t) && Decode(s)[0] == Decode(t)[0]
    ensures LeadingSequence(s) == LeadingSequence(t) && s[..LeadingSequence(s)] == t[..LeadingSequence(t)]
  {
    LeadingIsEncoding(s);
    LeadingIsEncoding(t);
    SameEncoding(Decode(s)[0], s[..LeadingSequence(s)], t[..LeadingSequence(t)]);
  }

  lemma SameEncoding(c: int, a: Bytes, b: Bytes)
    requires Encodes(c, a) && Encodes(c, b)
    ensures a == b
  {
    assert a[0] == b[0];
    if |a| >= 2 { assert a[1] == b[1]; }
    if |a| >= 3 { assert a[2] == b[2]; }
    if |a| >= 4 { assert a[3] == b[3]; }
  }

  /** On valid strings, comparing bytes is comparing code points. */
  lemma {:induction false} ByteOrderIsCodePointOrder(s: Bytes, t: Bytes)
    requires Valid(s) && Valid(t)
    ensures LexLess(s, t) <==> LexLess(Decode(s), Decode(t))
  {
    if s != [] && t != [] {
      var x, y := Decode(s), Decode(t);
      if x[0] < y[0] {
        SmallerLead(s, t);
      } else if y[0] < x[0] {
        SmallerLead(t, s);
        LexAsymmetric(t, s);
      } else {
        SameLead(s, t);
        var n := LeadingSequence(s);
        assert s == s[..n] + s[n..] && t == s[..n] + t[n..];
        LexCommonPrefix(s[..n], s[n..], t[n..]);
        ByteOrderIsCodePointOrder(s[n..], t[n..]);
        assert x[1..] == Decode(s[n..]) && y[1..] == Decode(t[n..]);
      }
    }
  }
}
