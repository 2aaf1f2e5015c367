/** Decimal text of integers: std::to_string, std::from_chars, and the integer literals of Canonical JSON. */
module Decimal {
  import opened Prelude

  const MINUS: byte := 45
  const ZERO: byte := 48
  const MAX_SAFE: int := 9007199254740991 // 2^53 - 1

  predicate IsDigit(b: byte) {
    48 <= b <= 57
  }

  predicate AllDigits(s: Bytes) {
    forall i :: 0 <= i < |s| ==> IsDigit(s[i])
  }

  function DigitByte(d: int): byte
    requires 0 <= d < 10
  {
    48 + d
  }

  function Abs(n: int): nat {
    if n < 0 then -n else n
  }

  /** std::to_string of a non-negative number. */
  function Digits(n: nat): (s: Bytes)
    ensures |s| > 0 && AllDigits(s)
    ensures s[0] == ZERO ==> n == 0
    ensures n == 0 ==> s == [ZERO]
  {
    if n < 10 then [DigitByte(n)] else Digits(n / 10) + [DigitByte(n % 10)]
  }

  /** std::to_string of an integer. */
  function Print(n: int): Bytes {
    if n < 0 then [MINUS] + Digits(-n) else Digits(n)
  }

  /** The printed form is the decimal one: the digits by their characters, the last one last, behind a minus sign. */
  lemma PrintedText(n: int)
    ensures n < 0 ==> Print(n) == Ascii("-") + Print(-n)
    ensures 0 <= n < 10 ==> Print(n) == [Ascii("0123456789")[n]]
    ensures n >= 10 ==> Print(n) == Print(n / 10) + Print(n % 10)
  {
  }

  /** The number a run of digits denotes. */
  function DigitsValue(s: Bytes): nat
    requires AllDigits(s)
  {
    if s == [] then 0 else DigitsValue(s[..|s| - 1]) * 10 + (s[|s| - 1] as int - 48)
  }

  lemma {:induction false} DigitsRoundTrip(n: nat)
    ensures DigitsValue(Digits(n)) == n
  {
    if n >= 10 {
      DigitsRoundTrip(n / 10);
      var s := Digits(n / 10) + [DigitByte(n % 10)];
      assert s[..|s| - 1] == Digits(n / 10);
    } else {
      assert [DigitByte(n)][..0] == [];
      assert DigitsValue([DigitByte(n)]) == n;
    }
  }

  /** Only the printed form of a number has no superfluous leading zero. */
  lemma {:induction false} DigitsCanonical(s: Bytes)
    requires AllDigits(s) && |s| > 0 && (s[0] == ZERO ==> |s| == 1)
    ensures Digits(DigitsValue(s)) == s
    ensures s[0] != ZERO ==> DigitsValue(s) > 0
  {
    var n := |s| - 1;
    if n == 0 {
      assert s[..0] == [];
    } else {
      DigitsCanonical(s[..n]);
      assert s == s[..n] + [s[n]];
    }
  }

  /** How many leading bytes are digits. */
  function DigitRun(s: Bytes): (n: nat)
    ensures n <= |s| && AllDigits(s[..n]) && (n < |s| ==> !IsDigit(s[n]))
  {
    if s == [] || !IsDigit(s[0]) then 0
    else
      var n := DigitRun(s[1..]);
      assert s[..n + 1] == [s[0]] + s[1..][..n];
      n + 1
  }

  lemma {:induction false} DigitRunIs(s: Bytes, n: nat)
    requires n <= |s| && AllDigits(s[..n]) && (n < |s| ==> !IsDigit(s[n]))
    ensures DigitRun(s) == n
  {
    if n > 0 {
      assert s[..n][0] == s[0];
      assert s[1..][..n - 1] == s[..n][1..];
      DigitRunIs(s[1..], n - 1);
    }
  }

  datatype FromChars = Parsed(value: int64, length: nat) | OutOfRange | NoNumber

  /** std::from_chars into a 64-bit signed integer. */
  function FromCharsInt64(s: Bytes): FromChars {
    var sign := if s != [] && s[0] == MINUS then 1 else 0;
    var body := s[sign..];
    var n := DigitRun(body);
    if n == 0 then NoNumber
    else
      var magnitude: int := DigitsValue(body[..n]);
      var value := if sign == 1 then -magnitude else magnitude;
      if INT64_MIN <= value <= INT64_MAX then Parsed(value, sign + n) else OutOfRange
  }

  lemma DigitsRun(n: nat, rest: Bytes)
    requires rest != [] ==> !IsDigit(rest[0])
    ensures DigitRun(Digits(n) + rest) == |Digits(n)|
    ensures (Digits(n) + rest)[..|Digits(n)|] == Digits(n)
  {
    assert (Digits(n) + rest)[..|Digits(n)|] == Digits(n);
    DigitRunIs(Digits(n) + rest, |Digits(n)|);
  }

  lemma UnsignedReads(d: Bytes, rest: Bytes)
    requires d != [] && AllDigits(d) && DigitRun(d + rest) == |d| && DigitsValue(d) <= INT64_MAX
    ensures FromCharsInt64(d + rest) == Parsed(DigitsValue(d), |d|)
  {
    var text := d + rest;
    assert text[0] == d[0] && text[0..] == text && text[..|d|] == d;
  }

  lemma NegativeReads(d: Bytes, rest: Bytes)
    requires d != [] && AllDigits(d) && DigitRun(d + rest) == |d| && DigitsValue(d) <= -INT64_MIN
    ensures FromCharsInt64([MINUS] + d + rest) == Parsed(0 - DigitsValue(d), 1 + |d|)
  {
    var text := [MINUS] + d + rest;
    assert text[0] == MINUS && text[1..] == d + rest && (d + rest)[..|d|] == d;
  }

  /** Reading back a printed number, whatever follows it, as long as that is not a digit. */
  lemma PrintedReadsBack(n: int64, rest: Bytes)
    requires rest != [] ==> !IsDigit(rest[0])
    ensures FromCharsInt64(Print(n) + rest) == Parsed(n, |Print(n)|)
  {
    var d := Digits(Abs(n));
    DigitsRun(Abs(n), rest);
    DigitsRoundTrip(Abs(n));
    if n < 0 {
      NegativeReads(d, rest);
    } else {
      UnsignedReads(d, rest);
    }
  }

  // ---------------------------------------------------------------- canonical integer literals

  /** 0, or an optional minus sign and digits that do not start with 0. */
  predicate CanonicalInt(t: Bytes) {
    t == [ZERO] ||
    (var body := if t != [] && t[0] == MINUS then t[1..] else t;
     body != [] && AllDigits(body) && body[0] != ZERO)
  }

  method IsCanonicalInt64Token(token: Bytes) returns (ok: bool)
    ensures ok <==> CanonicalInt(token)
  {
    if token == [] {
      return false;
    }
    var index := 0;
    var hasMinus := token[index] == MINUS;
    ghost var body := if hasMinus then token[1..] else token;
    if hasMinus {
      if |token| == 1 {
        return false;
      }
      index := index + 1;
    }
    ghost var start := index;
    assert forall i :: start <= i < |token| ==> token[i] == body[i - start];
    if token[index] == ZERO {
      if hasMinus {
        return false;
      }
      return index + 1 == |token|;
    }
    if token[index] < 49 || token[index] > 57 {
      return false;
    }
    index := index + 1;
    while index < |token|
      invariant start < index <= |token|
      invariant AllDigits(body[..index - start])
    {
      var character := token[index];
      if character < 48 || character > 57 {
        assert !IsDigit(body[index - start]);
        return false;
      }
      index := index + 1;
    }
    assert body[..index - start] == body;
    return true;
  }

  datatype RawInt = Integer(value: int64) | InvalidNumber | IntegerOutOfRange

  predicate HasFraction(t: Bytes) {
    exists i :: 0 <= i < |t| && (t[i] == 46 || t[i] == 101 || t[i] == 69)
  }

  /** The integer a raw JSON number token is converted to. */
  function RawNumberAsInt64(token: Bytes): RawInt {
    if HasFraction(token) then InvalidNumber
    else if !CanonicalInt(token) then InvalidNumber
    else
      match FromCharsInt64(token)
      case OutOfRange => IntegerOutOfRange
      case NoNumber => InvalidNumber
      case Parsed(value, length) =>
        if length != |token| then InvalidNumber
        else if value < -MAX_SAFE || value > MAX_SAFE then IntegerOutOfRange
        else Integer(value)
  }

  /** A literal has the canonical shape exactly when it is the printed form of an integer. */
  lemma CanonicalIsPrinted(t: Bytes)
    ensures CanonicalInt(t) <==> exists n :: Print(n) == t
  {
    if CanonicalInt(t) {
      if t == [ZERO] {
        assert Print(0) == t;
      } else {
        var body := if t[0] == MINUS then t[1..] else t;
        DigitsCanonical(body);
        var v: int := DigitsValue(body);
        var n := if t[0] == MINUS then -v else v;
        assert Print(n) == t;
      }
    }
    forall n | Print(n) == t ensures CanonicalInt(t) {
      var d := Digits(Abs(n));
      if n < 0 { assert t[1..] == d; }
    }
  }

  /** A raw number is accepted with value n exactly when it is the printed form of n and n is in the safe range. */
  lemma RawNumberIsPrinted(token: Bytes, n: int)
    ensures (RawNumberAsInt64(token).Integer? && RawNumberAsInt64(token).value == n)
            <==> token == Print(n) && -9007199254740991 <= n <= 9007199254740991
  {
    if token == Print(n) && -MAX_SAFE <= n <= MAX_SAFE {
      PrintedReadsBack(n, []);
      assert token + [] == token;
      CanonicalIsPrinted(token);
      PrintedHasNoFraction(n);
    }
    if CanonicalInt(token) {
      CanonicalIsPrinted(token);
      var m :| Print(m) == token;
      if INT64_MIN <= m <= INT64_MAX {
        PrintedReadsBack(m, []);
        assert token + [] == token;
      } else {
        PrintedTooLarge(m);
      }
    }
  }

  /** A printed integer outside the safe range is out of range; whatever is not a printed integer is no number. */
  lemma RawNumberErrors(token: Bytes, n: int)
    ensures token == Print(n) && !(-9007199254740991 <= n <= 9007199254740991) ==> RawNumberAsInt64(token) == IntegerOutOfRange
    ensures (forall m :: token != Print(m)) ==> RawNumberAsInt64(token) == InvalidNumber
  {
    CanonicalIsPrinted(token);
    if token == Print(n) {
      PrintedHasNoFraction(n);
      if INT64_MIN <= n <= INT64_MAX {
        PrintedReadsBack(n, []);
        assert token + [] == token;
      } else {
        PrintedTooLarge(n);
      }
    }
  }

  lemma PrintedHasNoFraction(n: int)
    ensures !HasFraction(Print(n))
  {
    var d := Digits(Abs(n));
    forall i | 0 <= i < |Print(n)| ensures Print(n)[i] == MINUS || IsDigit(Print(n)[i]) {
      if n < 0 && i > 0 { assert Print(n)[i] == d[i - 1]; }
    }
  }

  lemma PrintedTooLarge(n: int)
    requires n < INT64_MIN || INT64_MAX < n
    ensures FromCharsInt64(Print(n)) == OutOfRange
  {
    var d := Digits(Abs(n));
    DigitsRun(Abs(n), []);
    DigitsRoundTrip(Abs(n));
    assert d + [] == d;
    if n < 0 {
      assert Print(n)[1..] == d;
    } else {
      assert Print(n)[0..] == d;
    }
  }
}
