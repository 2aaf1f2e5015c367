/**
 The line scanner and scalar decoder of the YAML subset in which application services are registered:
 comment stripping, trimming, key splitting and quoted scalars.
 */
module RegistrationYaml {
  import opened Prelude
  import opened Substrings

  const TAB: byte := 9
  const NEWLINE: byte := 10
  const CR: byte := 13
  const SPACE: byte := 32
  const DOUBLE_QUOTE: byte := 34
  const HASH: byte := 35
  const SINGLE_QUOTE: byte := 39
  const COLON: byte := 58
  const BACKSLASH: byte := 92
  const MAX_LINE_BYTES := 4096

  // ---------------------------------------------------------------- comments

  datatype Quote = Plain | Single | Double

  predicate Blank(b: byte) {
    b == SPACE || b == TAB
  }

  /** How many bytes stand before the comment; `boundary` says whether one may start here. */
  function BeforeComment(rest: Bytes, boundary: bool, quote: Quote): (n: nat)
    ensures n <= |rest|
    decreases |rest|
  {
    if rest == [] then 0
    else
      var c := rest[0];
      match quote
      case Single =>
        if c == SINGLE_QUOTE && |rest| > 1 && rest[1] == SINGLE_QUOTE
        then 2 + BeforeComment(rest[2..], Blank(rest[1]), Single)
        else 1 + BeforeComment(rest[1..], Blank(c), if c == SINGLE_QUOTE then Plain else Single)
      case Double =>
        if c == BACKSLASH && |rest| > 1
        then 2 + BeforeComment(rest[2..], Blank(rest[1]), Double)
        else 1 + BeforeComment(rest[1..], Blank(c), if c == DOUBLE_QUOTE then Plain else Double)
      case Plain =>
        if c == HASH && boundary then 0
        else
          1 + BeforeComment(rest[1..], Blank(c),
                            if c == SINGLE_QUOTE then Single else if c == DOUBLE_QUOTE then Double else Plain)
  }

  predicate BoundaryAt(line: Bytes, index: nat)
    requires index <= |line|
  {
    index == 0 || Blank(line[index - 1])
  }

  lemma CommentStep(line: Bytes, index: nat, quote: Quote, next: nat, quote': Quote)
    requires index < next <= |line|
    requires var rest := line[index..]; var c := rest[0];
             next - index == (if quote.Single? && c == SINGLE_QUOTE && |rest| > 1 && rest[1] == SINGLE_QUOTE then 2
                              else if quote.Double? && c == BACKSLASH && |rest| > 1 then 2 else 1)
             && quote' == (if next - index == 2 then quote
                           else if quote.Single? && c == SINGLE_QUOTE then Plain
                           else if quote.Double? && c == DOUBLE_QUOTE then Plain
                           else if quote.Plain? && c == SINGLE_QUOTE then Single
                           else if quote.Plain? && c == DOUBLE_QUOTE then Double else quote)
             && !(quote.Plain? && c == HASH && BoundaryAt(line, index))
    ensures BeforeComment(line[index..], BoundaryAt(line, index), quote)
         == next - index + BeforeComment(line[next..], BoundaryAt(line, next), quote')
  {
    assert line[index..][next - index..] == line[next..];
  }

  /** The quote-tracking loop; the length of the line stands for no comment. */
  method FindCommentStart(line: Bytes) returns (start: nat)
    ensures start == BeforeComment(line, true, Plain)
  {
    var quote := Plain;
    var index := 0;
    assert line[0..] == line;
    while index < |line|
      invariant 0 <= index <= |line|
      invariant BeforeComment(line, true, Plain) == index + BeforeComment(line[index..], BoundaryAt(line, index), quote)
    {
      ghost var from, within := index, quote;
      var character := line[index];
      if quote.Single? {
        if character == SINGLE_QUOTE {
          if index + 1 < |line| && line[index + 1] == SINGLE_QUOTE {
            index := index + 1;
          } else {
            quote := Plain;
          }
        }
      } else if quote.Double? {
        if character == BACKSLASH {
          index := if index + 1 < |line| then index + 1 else index;
        } else if character == DOUBLE_QUOTE {
          quote := Plain;
        }
      } else if character == SINGLE_QUOTE {
        quote := Single;
      } else if character == DOUBLE_QUOTE {
        quote := Double;
      } else if character == HASH && BoundaryAt(line, index) {
        return index;
      }
      index := index + 1;
      CommentStep(line, from, within, index, quote);
    }
    return |line|;
  }

  // ---------------------------------------------------------------- trimming and keys

  function TrimFront(s: Bytes): Bytes {
    if s != [] && s[0] == SPACE then TrimFront(s[1..]) else s
  }

  function TrimBack(s: Bytes): Bytes {
    if s != [] && (s[|s| - 1] == SPACE || s[|s| - 1] == CR) then TrimBack(s[..|s| - 1]) else s
  }

  function Trimmed(s: Bytes): Bytes {
    TrimBack(TrimFront(s))
  }

  method Trim(value: Bytes) returns (result: Bytes)
    ensures result == Trimmed(value)
  {
    result := value;
    while result != [] && result[0] == SPACE
      invariant TrimFront(result) == TrimFront(value)
      decreases |result|
    {
      result := result[1..];
    }
    while result != [] && (result[|result| - 1] == SPACE || result[|result| - 1] == CR)
      invariant TrimBack(result) == Trimmed(value)
      decreases |result|
    {
      result := result[..|result| - 1];
    }
  }

  function IndentOf(s: Bytes): (n: nat)
    ensures n <= |s|
  {
    if s != [] && s[0] == SPACE then 1 + IndentOf(s[1..]) else 0
  }

  datatype KeyValue = KeyValue(key: Bytes, value: Bytes)

  function SplitKey(text: Bytes): Option<KeyValue> {
    var colon := FirstIndex(COLON, text);
    if colon == |text| then None
    else
      var key := Trimmed(text[..colon]);
      if key == [] then None else Some(KeyValue(key, Trimmed(text[colon + 1..])))
  }

  // ---------------------------------------------------------------- one line

  datatype Stripped = LineTooLong | TabInLine | NothingLeft | DocumentMarker | Line(indent: nat, text: Bytes)

  function Strip(raw: Bytes): Stripped {
    if |raw| > MAX_LINE_BYTES then LineTooLong
    else if TAB in raw then TabInLine
    else
      var withoutComment := raw[..BeforeComment(raw, true, Plain)];
      var indent := IndentOf(withoutComment);
      var text := Trimmed(withoutComment[indent..]);
      if text == [] then NothingLeft
      else if text == [45, 45, 45] || text == [46, 46, 46] then DocumentMarker
      else Line(indent, text)
  }

  // ---------------------------------------------------------------- scalars

  predicate UsesRejectedFeature(raw: Bytes) {
    raw != [] && raw[0] in [38, 42, 33, 124, 62, 91, 123, 37]
  }

  /** The text of a single-quoted scalar, less its closing quote. */
  function UnquoteSingle(body: Bytes): Bytes
    decreases |body|
  {
    if |body| <= 1 then []
    else if body[0] == SINGLE_QUOTE && |body| > 2 && body[1] == SINGLE_QUOTE then [SINGLE_QUOTE] + UnquoteSingle(body[2..])
    else [body[0]] + UnquoteSingle(body[1..])
  }

  function UnquoteDouble(body: Bytes): Bytes
    decreases |body|
  {
    if |body| <= 1 then []
    else if body[0] == BACKSLASH && |body| > 2 && (body[1] == DOUBLE_QUOTE || body[1] == BACKSLASH)
    then [body[1]] + UnquoteDouble(body[2..])
    else [body[0]] + UnquoteDouble(body[1..])
  }

  function Scalar(raw: Bytes): Option<Bytes>
    requires raw != []
  {
    if UsesRejectedFeature(raw) then None
    else if |raw| >= 2 && raw[0] == SINGLE_QUOTE then
      if raw[|raw| - 1] != SINGLE_QUOTE then None else Some(UnquoteSingle(raw[1..]))
    else if |raw| >= 2 && raw[0] == DOUBLE_QUOTE then
      if raw[|raw| - 1] != DOUBLE_QUOTE then None else Some(UnquoteDouble(raw[1..]))
    else if raw[0] == DOUBLE_QUOTE || raw[0] == SINGLE_QUOTE then None
    else Some(raw)
  }

  method DecodeSingle(raw: Bytes) returns (value: Bytes)
    requires |raw| >= 2
    ensures value == UnquoteSingle(raw[1..])
  {
    value := [];
    ghost var left := UnquoteSingle(raw[1..]);
    var index := 1;
    while index + 1 < |raw|
      invariant 1 <= index <= |raw|
      invariant left == UnquoteSingle(raw[index..]) && UnquoteSingle(raw[1..]) == value + left
    {
      ghost var rest := raw[index..];
      assert rest[1..] == raw[index + 1..] && rest[2..] == raw[index + 2..];
      if raw[index] == SINGLE_QUOTE && index + 1 < |raw| - 1 && raw[index + 1] == SINGLE_QUOTE {
        left := UnquoteSingle(rest[2..]);
        Shift(value, SINGLE_QUOTE, left);
        value := value + [SINGLE_QUOTE];
        index := index + 2;
      } else {
        left := UnquoteSingle(rest[1..]);
        Shift(value, raw[index], left);
        value := value + [raw[index]];
        index := index + 1;
      }
    }
  }

  method DecodeDouble(raw: Bytes) returns (value: Bytes)
    requires |raw| >= 2
    ensures value == UnquoteDouble(raw[1..])
  {
    value := [];
    ghost var left := UnquoteDouble(raw[1..]);
    var index := 1;
    while index + 1 < |raw|
      invariant 1 <= index <= |raw|
      invariant left == UnquoteDouble(raw[index..]) && UnquoteDouble(raw[1..]) == value + left
    {
      ghost var rest := raw[index..];
      assert rest[1..] == raw[index + 1..] && rest[2..] == raw[index + 2..];
      if raw[index] == BACKSLASH && index + 1 < |raw| - 1
         && (raw[index + 1] == DOUBLE_QUOTE || raw[index + 1] == BACKSLASH) {
        left := UnquoteDouble(rest[2..]);
        Shift(value, raw[index + 1], left);
        value := value + [raw[index + 1]];
        index := index + 2;
      } else {
        left := UnquoteDouble(rest[1..]);
        Shift(value, raw[index], left);
        value := value + [raw[index]];
        index := index + 1;
      }
    }
  }

  /** One scalar value; the text is not empty, as the first-byte tests demand. */
  method ParseScalar(raw: Bytes) returns (value: Option<Bytes>)
    requires raw != []
    ensures value == Scalar(raw)
  {
    if UsesRejectedFeature(raw) {
      return None;
    }
    if |raw| >= 2 && raw[0] == SINGLE_QUOTE {
      if raw[|raw| - 1] != SINGLE_QUOTE {
        return None;
      }
      var text := DecodeSingle(raw);
      return Some(text);
    }
    if |raw| >= 2 && raw[0] == DOUBLE_QUOTE {
      if raw[|raw| - 1] != DOUBLE_QUOTE {
        return None;
      }
      var text := DecodeDouble(raw);
      return Some(text);
    }
    if raw[0] == DOUBLE_QUOTE || raw[0] == SINGLE_QUOTE {
      return None;
    }
    return Some(raw);
  }

  // ---------------------------------------------------------------- writing a quoted scalar

  function SingleBody(s: Bytes): Bytes {
    if s == [] then []
    else (if s[0] == SINGLE_QUOTE then [SINGLE_QUOTE, SINGLE_QUOTE] else [s[0]]) + SingleBody(s[1..])
  }

  function DoubleBody(s: Bytes): Bytes {
    if s == [] then []
    else (if s[0] == DOUBLE_QUOTE || s[0] == BACKSLASH then [BACKSLASH, s[0]] else [s[0]]) + DoubleBody(s[1..])
  }

  datatype Style = SingleStyle | DoubleStyle

  function QuoteByte(style: Style): byte {
    if style.SingleStyle? then SINGLE_QUOTE else DOUBLE_QUOTE
  }

  function Body(s: Bytes, style: Style): Bytes {
    if style.SingleStyle? then SingleBody(s) else DoubleBody(s)
  }

  /** The text between quotes of the chosen style, escaped for it. */
  function Quoted(s: Bytes, style: Style): Bytes {
    [QuoteByte(style)] + Body(s, style) + [QuoteByte(style)]
  }

  lemma {:induction false} UnquoteSingleBody(s: Bytes)
    ensures UnquoteSingle(SingleBody(s) + [SINGLE_QUOTE]) == s
  {
    if s != [] {
      var body := SingleBody(s) + [SINGLE_QUOTE];
      var tail := SingleBody(s[1..]) + [SINGLE_QUOTE];
      UnquoteSingleBody(s[1..]);
      if s[0] == SINGLE_QUOTE {
        assert body[2..] == tail;
      } else {
        assert body[1..] == tail;
      }
    }
  }

  lemma {:induction false} UnquoteDoubleBody(s: Bytes)
    ensures UnquoteDouble(DoubleBody(s) + [DOUBLE_QUOTE]) == s
  {
    if s != [] {
      var body := DoubleBody(s) + [DOUBLE_QUOTE];
      var tail := DoubleBody(s[1..]) + [DOUBLE_QUOTE];
      UnquoteDoubleBody(s[1..]);
      if s[0] == DOUBLE_QUOTE || s[0] == BACKSLASH {
        assert body[2..] == tail;
      } else {
        assert body[1..] == tail;
      }
    }
  }

  /** Decoding a quoted scalar gives back the text that was quoted. */
  lemma ScalarUndoesQuoted(s: Bytes, style: Style)
    ensures Scalar(Quoted(s, style)) == Some(s)
  {
    var raw := Quoted(s, style);
    assert raw[1..] == Body(s, style) + [QuoteByte(style)];
    UnquoteSingleBody(s);
    UnquoteDoubleBody(s);
  }

  // ---------------------------------------------------------------- comments do not start inside quotes

  lemma {:induction false} SinglePasses(s: Bytes, rest: Bytes, boundary: bool)
    requires rest != [] ==> rest[0] != SINGLE_QUOTE
    ensures BeforeComment(SingleBody(s) + [SINGLE_QUOTE] + rest, boundary, Single)
         == |SingleBody(s)| + 1 + BeforeComment(rest, false, Plain)
  {
    var line := SingleBody(s) + [SINGLE_QUOTE] + rest;
    if s == [] {
      assert line[1..] == rest;
    } else {
      var tail := SingleBody(s[1..]) + [SINGLE_QUOTE] + rest;
      if s[0] == SINGLE_QUOTE {
        assert line[2..] == tail && line[0] == SINGLE_QUOTE && line[1] == SINGLE_QUOTE;
        SinglePasses(s[1..], rest, Blank(SINGLE_QUOTE));
      } else {
        assert line[1..] == tail && line[0] == s[0];
        SinglePasses(s[1..], rest, Blank(s[0]));
      }
    }
  }

  lemma {:induction false} DoublePasses(s: Bytes, rest: Bytes, boundary: bool)
    ensures BeforeComment(DoubleBody(s) + [DOUBLE_QUOTE] + rest, boundary, Double)
         == |DoubleBody(s)| + 1 + BeforeComment(rest, false, Plain)
  {
    var line := DoubleBody(s) + [DOUBLE_QUOTE] + rest;
    if s == [] {
      assert line[1..] == rest;
    } else {
      var tail := DoubleBody(s[1..]) + [DOUBLE_QUOTE] + rest;
      if s[0] == DOUBLE_QUOTE || s[0] == BACKSLASH {
        assert line[2..] == tail && line[0] == BACKSLASH && line[1] == s[0];
        DoublePasses(s[1..], rest, Blank(s[0]));
      } else {
        assert line[1..] == tail && line[0] == s[0];
        DoublePasses(s[1..], rest, Blank(s[0]));
      }
    }
  }

  /** An opening quote hands over to the scan inside that quote. */
  lemma QuoteOpens(style: Style, rest: Bytes, boundary: bool)
    ensures BeforeComment([QuoteByte(style)] + rest, boundary, Plain)
         == 1 + BeforeComment(rest, false, if style.SingleStyle? then Single else Double)
  {
    assert ([QuoteByte(style)] + rest)[1..] == rest;
  }

  lemma QuotedPasses(s: Bytes, style: Style, rest: Bytes, boundary: bool)
    requires rest != [] ==> rest[0] != SINGLE_QUOTE
    ensures BeforeComment(Quoted(s, style) + rest, boundary, Plain)
         == |Quoted(s, style)| + BeforeComment(rest, false, Plain)
  {
    var inner := Body(s, style) + [QuoteByte(style)] + rest;
    assert Quoted(s, style) + rest == [QuoteByte(style)] + inner;
    QuoteOpens(style, inner, boundary);
    if style.SingleStyle? {
      SinglePasses(s, rest, false);
    } else {
      DoublePasses(s, rest, false);
    }
  }

  /** Bytes that neither open a quote nor start a comment. */
  predicate Quiet(s: Bytes) {
    forall i :: 0 <= i < |s| ==> s[i] != SINGLE_QUOTE && s[i] != DOUBLE_QUOTE && s[i] != HASH
  }

  lemma {:induction false} QuietPasses(s: Bytes, rest: Bytes, boundary: bool)
    requires Quiet(s) && s != []
    ensures BeforeComment(s + rest, boundary, Plain) == |s| + BeforeComment(rest, Blank(s[|s| - 1]), Plain)
  {
    var line := s + rest;
    assert line[0] == s[0] && line[1..] == s[1..] + rest;
    if |s| > 1 {
      QuietPasses(s[1..], rest, Blank(s[0]));
    } else {
      assert line[1..] == rest;
    }
  }

  // ---------------------------------------------------------------- a whole line

  function Spaces(n: nat): (s: Bytes)
    ensures |s| == n && forall i :: 0 <= i < n ==> s[i] == SPACE
  {
    seq(n, _ => SPACE)
  }

  /** A key that needs no quoting: not empty, no blank, colon, quote, hash or line break. */
  predicate PlainKey(key: Bytes) {
    key != [] && Quiet(key) && forall i :: 0 <= i < |key| ==> key[i] !in [TAB, NEWLINE, CR, SPACE, COLON]
  }

  /** What trimming removes at the end of a line. */
  predicate Padding(gap: Bytes) {
    forall i :: 0 <= i < |gap| ==> gap[i] == SPACE || gap[i] == CR
  }

  /** The rest of a line: padding, a carriage return included, and perhaps a comment behind a space. */
  predicate Commentary(gap: Bytes, comment: Bytes) {
    Padding(gap) && (comment == [] || (gap != [] && gap[|gap| - 1] == SPACE && comment[0] == HASH))
  }

  function Written(key: Bytes, text: Bytes, style: Style): Bytes {
    key + [COLON, SPACE] + Quoted(text, style)
  }

  function WrittenLine(indent: nat, key: Bytes, text: Bytes, style: Style, gap: Bytes, comment: Bytes): Bytes {
    Spaces(indent) + Written(key, text, style) + gap + comment
  }

  lemma TailStops(gap: Bytes, comment: Bytes)
    requires Commentary(gap, comment)
    ensures BeforeComment(gap + comment, false, Plain) == |gap|
    ensures gap + comment != [] ==> (gap + comment)[0] != SINGLE_QUOTE
  {
    if gap != [] {
      QuietPasses(gap, comment, false);
    } else {
      assert gap + comment == [];
    }
  }

  lemma Regroup(indent: Bytes, key: Bytes, colon: Bytes, quoted: Bytes, gap: Bytes, comment: Bytes)
    ensures indent + (key + colon + quoted) + gap + comment == (indent + key + colon) + (quoted + (gap + comment))
  {
  }

  lemma HeadIsQuiet(indent: nat, key: Bytes)
    requires PlainKey(key)
    ensures var head := Spaces(indent) + key + [COLON, SPACE]; Quiet(head) && Blank(head[|head| - 1])
  {
  }

  /** Comment stripping keeps exactly the line up to its comment. */
  lemma CommentIsFound(indent: nat, key: Bytes, text: Bytes, style: Style, gap: Bytes, comment: Bytes)
    requires PlainKey(key) && Commentary(gap, comment)
    ensures BeforeComment(WrittenLine(indent, key, text, style, gap, comment), true, Plain)
         == indent + |Written(key, text, style)| + |gap|
  {
    var head := Spaces(indent) + key + [COLON, SPACE];
    var quoted := Quoted(text, style);
    Regroup(Spaces(indent), key, [COLON, SPACE], quoted, gap, comment);
    HeadIsQuiet(indent, key);
    TailStops(gap, comment);
    Scan(head, text, style, gap + comment);
  }

  lemma Scan(head: Bytes, text: Bytes, style: Style, tail: Bytes)
    requires head != [] && Quiet(head) && (tail != [] ==> tail[0] != SINGLE_QUOTE)
    ensures BeforeComment(head + (Quoted(text, style) + tail), true, Plain)
         == |head| + |Quoted(text, style)| + BeforeComment(tail, false, Plain)
  {
    QuietPasses(head, Quoted(text, style) + tail, true);
    QuotedPasses(text, style, tail, Blank(head[|head| - 1]));
  }

  lemma {:induction false} TrimFrontSpaces(n: nat, s: Bytes)
    requires s != [] && s[0] != SPACE
    ensures TrimFront(Spaces(n) + s) == s && IndentOf(Spaces(n) + s) == n
  {
    var t := Spaces(n) + s;
    if n == 0 {
      assert t == s;
    } else {
      assert t[0] == SPACE && t[1..] == Spaces(n - 1) + s;
      TrimFrontSpaces(n - 1, s);
    }
  }

  lemma {:induction false} TrimBackPadding(s: Bytes, gap: Bytes)
    requires s != [] && s[|s| - 1] != SPACE && s[|s| - 1] != CR && Padding(gap)
    ensures TrimBack(s + gap) == s
  {
    var t := s + gap;
    if gap == [] {
      assert t == s;
    } else {
      var n := |gap| - 1;
      assert t[|t| - 1] == gap[n] && t[..|t| - 1] == s + gap[..n];
      TrimBackPadding(s, gap[..n]);
    }
  }

  lemma ColonAfterKey(key: Bytes, rest: Bytes)
    requires forall i :: 0 <= i < |key| ==> key[i] != COLON
    ensures FirstIndex(COLON, key + [COLON] + rest) == |key|
  {
    var s := key + [COLON] + rest;
    assert s[|key|] == COLON && forall i :: 0 <= i < |key| ==> s[i] == key[i];
  }

  /** A byte string that neither starts nor ends with something trimming removes. */
  predicate Tight(s: Bytes) {
    s != [] && s[0] != SPACE && s[|s| - 1] != SPACE && s[|s| - 1] != CR
  }

  lemma TrimmedTight(before: nat, s: Bytes, after: Bytes)
    requires Tight(s) && Padding(after)
    ensures Trimmed(Spaces(before) + s + after) == s
  {
    assert Spaces(before) + s + after == Spaces(before) + (s + after);
    TrimFrontSpaces(before, s + after);
    TrimBackPadding(s, after);
  }

  lemma SplitTight(key: Bytes, value: Bytes)
    requires PlainKey(key) && Tight(value)
    ensures SplitKey(key + [COLON, SPACE] + value) == Some(KeyValue(key, value))
  {
    var line := key + [COLON, SPACE] + value;
    assert line == key + [COLON] + ([SPACE] + value);
    ColonAfterKey(key, [SPACE] + value);
    assert line[..|key|] == Spaces(0) + key + [];
    TrimmedTight(0, key, []);
    assert line[|key| + 1..] == Spaces(1) + value + [];
    TrimmedTight(1, value, []);
  }

  /** Splitting finds the key and the quoted text as they were written. */
  lemma SplitIsWritten(key: Bytes, text: Bytes, style: Style)
    requires PlainKey(key)
    ensures SplitKey(Written(key, text, style)) == Some(KeyValue(key, Quoted(text, style)))
  {
    SplitTight(key, Quoted(text, style));
  }

  lemma StripIsWritten(indent: nat, key: Bytes, text: Bytes, style: Style, gap: Bytes, comment: Bytes)
    requires PlainKey(key) && Commentary(gap, comment)
    requires var line := WrittenLine(indent, key, text, style, gap, comment); |line| <= MAX_LINE_BYTES && TAB !in line
    ensures Strip(WrittenLine(indent, key, text, style, gap, comment)) == Line(indent, Written(key, text, style))
  {
    var line, written := WrittenLine(indent, key, text, style, gap, comment), Written(key, text, style);
    CommentIsFound(indent, key, text, style, gap, comment);
    KeptPart(Spaces(indent), written, gap, comment);
    WrittenIsTight(key, text, style);
    KeptTrims(indent, written, gap);
    StripKeeps(line, indent + |written| + |gap|, indent, written);
  }

  lemma KeptTrims(indent: nat, written: Bytes, gap: Bytes)
    requires Tight(written) && Padding(gap)
    ensures IndentOf(Spaces(indent) + (written + gap)) == indent && Trimmed(written + gap) == written
  {
    TrimFrontSpaces(indent, written + gap);
    TrimmedTight(0, written, gap);
    assert Spaces(0) + written + gap == written + gap;
  }

  lemma StripKeeps(raw: Bytes, n: nat, indent: nat, text: Bytes)
    requires |raw| <= MAX_LINE_BYTES && TAB !in raw && n == BeforeComment(raw, true, Plain)
    requires indent == IndentOf(raw[..n]) && text == Trimmed(raw[..n][indent..]) && |text| > 3
    ensures Strip(raw) == Line(indent, text)
  {
  }

  lemma KeptPart(indent: Bytes, written: Bytes, gap: Bytes, comment: Bytes)
    ensures var kept := (indent + written + gap + comment)[..|indent| + |written| + |gap|];
            kept == indent + (written + gap) && kept[|indent|..] == written + gap
  {
  }

  lemma WrittenIsTight(key: Bytes, text: Bytes, style: Style)
    requires PlainKey(key)
    ensures Tight(Written(key, text, style)) && |Written(key, text, style)| > 3
  {
    var written := Written(key, text, style);
    assert written[0] == key[0] && written[|written| - 1] == QuoteByte(style);
  }

  /**
   A line with a key and a quoted text, indented or not, commented or not, comes back through comment
   stripping, trimming, key splitting and scalar decoding as exactly that key and that text.
   */
  lemma QuotedLineRoundTrips(indent: nat, key: Bytes, text: Bytes, style: Style, gap: Bytes, comment: Bytes)
    requires PlainKey(key) && Commentary(gap, comment)
    requires var line := WrittenLine(indent, key, text, style, gap, comment); |line| <= MAX_LINE_BYTES && TAB !in line
    ensures var stripped := Strip(WrittenLine(indent, key, text, style, gap, comment));
            && stripped.Line? && stripped.indent == indent
            && SplitKey(stripped.text).Some?
            && SplitKey(stripped.text).value.key == key
            && SplitKey(stripped.text).value.value != []
            && Scalar(SplitKey(stripped.text).value.value) == Some(text)
  {
    StripIsWritten(indent, key, text, style, gap, comment);
    SplitIsWritten(key, text, style);
    ScalarUndoesQuoted(text, style);
  }

  // ---------------------------------------------------------------- no caller passes an empty scalar

  lemma {:induction false} TrimBackTight(s: Bytes)
    ensures var t := TrimBack(s); t != [] ==> t[|t| - 1] != SPACE && t[|t| - 1] != CR
  {
    if s != [] && (s[|s| - 1] == SPACE || s[|s| - 1] == CR) {
      TrimBackTight(s[..|s| - 1]);
    }
  }

  /** Trimming leaves something of a text whose last byte it would not remove. */
  lemma {:induction false} TrimmedKeepsEnd(s: Bytes)
    requires s != [] && s[|s| - 1] != SPACE && s[|s| - 1] != CR
    ensures Trimmed(s) != []
  {
    if s[0] == SPACE {
      TrimmedKeepsEnd(s[1..]);
    }
  }

  /** The text of a list entry is never empty: a line kept by stripping ends in a byte that trimming leaves. */
  lemma ListEntryNotEmpty(raw: Bytes)
    requires Strip(raw).Line? && [45, 32] <= Strip(raw).text
    ensures Trimmed(Strip(raw).text[2..]) != []
  {
    var text := Strip(raw).text;
    var kept := raw[..BeforeComment(raw, true, Plain)];
    TrimBackTight(TrimFront(kept[IndentOf(kept)..]));
    assert text[1] == SPACE && text[|text| - 1] != SPACE;
    TrimmedKeepsEnd(text[2..]);
  }

  /** An entry of the protocol list: behind "- ", with no test for an empty value. */
  method ProtocolEntry(raw: Bytes, text: Bytes) returns (value: Option<Bytes>)
    requires Strip(raw).Line? && text == Strip(raw).text && [45, 32] <= text
    ensures Trimmed(text[2..]) != [] && value == Scalar(Trimmed(text[2..]))
  {
    ListEntryNotEmpty(raw);
    var entry := Trim(text[2..]);
    if UsesRejectedFeature(entry) {
      return None;
    }
    value := ParseScalar(entry);
  }

  /** A value behind a key: every reader of one returns early when it is empty. */
  method KeyedScalar(entry: Bytes) returns (value: Option<Bytes>)
    ensures value == if entry == [] then None else Scalar(entry)
  {
    if entry == [] {
      return None;
    }
    if UsesRejectedFeature(entry) {
      return None;
    }
    value := ParseScalar(entry);
  }

  // ---------------------------------------------------------------- the characters that matter

  /** A hash that may start a comment: the first byte of the line, or behind a space or a tab. */
  predicate CommentMark(line: Bytes, n: nat) {
    n < |line| && [line[n]] == Ascii("#") && (n == 0 || line[n - 1] in Ascii(" \t"))
  }

  lemma BlanksAre(b: byte)
    ensures Blank(b) <==> b in Ascii(" \t")
  {
    assert Ascii(" \t") == [32, 9];
  }

  /** From any place of a line without quotes behind it, the comment starts at the first such hash, if there is one. */
  lemma {:induction false} PlainComment(line: Bytes, from: nat)
    requires from <= |line| && forall i :: from <= i < |line| ==> line[i] !in Ascii("'\"")
    ensures var n := from + BeforeComment(line[from..], BoundaryAt(line, from), Plain);
            && (forall i :: from <= i < n ==> !CommentMark(line, i))
            && (n < |line| ==> CommentMark(line, n))
    decreases |line| - from
  {
    assert Ascii("#") == [HASH] && Ascii("'\"") == [SINGLE_QUOTE, DOUBLE_QUOTE];
    if from < |line| {
      if from > 0 {
        BlanksAre(line[from - 1]);
      }
      assert line[from] !in Ascii("'\"");
      assert line[from..][1..] == line[from + 1..];
      PlainComment(line, from + 1);
    }
  }

  /** Trimming takes leading spaces and trailing spaces and carriage returns, and all of them. */
  lemma TrimmedIs(s: Bytes) returns (before: Bytes, after: Bytes)
    ensures s == before + Trimmed(s) + after
    ensures (forall b :: b in before ==> b == ' ' as int) && (forall b :: b in after ==> b == ' ' as int || b == '\r' as int)
    ensures Trimmed(s) != [] ==> Trimmed(s)[0] != ' ' as int
    ensures Trimmed(s) != [] ==> var last := Trimmed(s)[|Trimmed(s)| - 1]; last != ' ' as int && last != '\r' as int
  {
    before := FrontTrimmed(s);
    after := BackTrimmed(TrimFront(s));
    TrimBackTight(TrimFront(s));
    assert before + (Trimmed(s) + after) == before + Trimmed(s) + after;
  }

  lemma {:induction false} FrontTrimmed(s: Bytes) returns (before: Bytes)
    ensures s == before + TrimFront(s) && forall b :: b in before ==> b == 32
    ensures TrimFront(s) != [] ==> TrimFront(s)[0] != 32
  {
    before := [];
    if s != [] && s[0] == SPACE {
      var rest := FrontTrimmed(s[1..]);
      before := [s[0]] + rest;
      assert s == [s[0]] + s[1..];
    }
  }

  lemma {:induction false} BackTrimmed(s: Bytes) returns (after: Bytes)
    ensures s == TrimBack(s) + after && forall b :: b in after ==> b == 32 || b == 13
    ensures TrimBack(s) != [] ==> s != [] && TrimBack(s)[0] == s[0]
  {
    after := [];
    if s != [] && (s[|s| - 1] == SPACE || s[|s| - 1] == CR) {
      var rest := BackTrimmed(s[..|s| - 1]);
      after := rest + [s[|s| - 1]];
      assert s == s[..|s| - 1] + [s[|s| - 1]];
    }
  }

  /** A key is what stands before the first colon, trimmed; without a colon or with nothing before it there is none. */
  lemma SplitsAtFirstColon(text: Bytes, key: Bytes, rest: Bytes)
    requires text == key + Ascii(":") + rest && Ascii(":")[0] !in key
    ensures SplitKey(text) == if Trimmed(key) == [] then None else Some(KeyValue(Trimmed(key), Trimmed(rest)))
  {
    assert Ascii(":") == [COLON];
    assert text[|key|] == COLON && forall i :: 0 <= i < |key| ==> text[i] == key[i] && key[i] in key;
    assert FirstIndex(COLON, text) == |key|;
    assert text[..|key|] == key && text[|key| + 1..] == rest;
  }

  lemma NoColonNoKey(text: Bytes)
    requires Ascii(":")[0] !in text
    ensures SplitKey(text) == None
  {
    assert Ascii(":") == [COLON];
  }

  /** Which lines are refused for their length or a tab. */
  lemma StripRefuses(raw: Bytes)
    ensures Strip(raw).LineTooLong? <==> |raw| > 4096
    ensures Strip(raw).TabInLine? <==> |raw| <= 4096 && '\t' as int in raw
  {
  }

  lemma MarkersSpelt()
    ensures Ascii("---") == [45, 45, 45] && Ascii("...") == [46, 46, 46]
  {
  }

  /** What is left of any other line is a document marker, nothing, or the text that is kept with its indent. */
  lemma StripLeaves(raw: Bytes, kept: Bytes, text: Bytes)
    requires |raw| <= 4096 && '\t' as int !in raw
    requires kept == raw[..BeforeComment(raw, true, Plain)] && text == Trimmed(kept[IndentOf(kept)..])
    ensures Strip(raw) == if text == [] then NothingLeft
                          else if text == Ascii("---") || text == Ascii("...") then DocumentMarker
                          else Line(IndentOf(kept), text)
  {
    MarkersSpelt();
  }

  /** Which texts are no scalar: those that start a YAML feature outside the subset, and unclosed quotes. */
  lemma ScalarRefused(raw: Bytes)
    requires raw != []
    ensures Scalar(raw).None? <==>
            || raw[0] in Ascii("&*!|>[{%")
            || (raw[0] in Ascii("'\"") && (|raw| == 1 || raw[|raw| - 1] != raw[0]))
    ensures raw[0] !in Ascii("&*!|>[{%'\"") ==> Scalar(raw) == Some(raw)
  {
    assert Ascii("&*!|>[{%") == [38, 42, 33, 124, 62, 91, 123, 37];
    assert Ascii("&*!|>[{%'\"") == [38, 42, 33, 124, 62, 91, 123, 37, 39, 34];
    assert Ascii("'\"") == [39, 34];
  }

  /** How the two styles write their own quote, and the second one a backslash. */
  lemma QuotesWritten()
    ensures SingleBody(Ascii("'")) == Ascii("''")
    ensures DoubleBody(Ascii("\"")) == Ascii("\\\"") && DoubleBody(Ascii("\\")) == Ascii("\\\\")
  {
    assert Ascii("'") == [39] && Ascii("\"") == [34] && Ascii("\\") == [92];
    assert SingleBody([39]) == [39, 39] + SingleBody([]) && DoubleBody([34]) == [92, 34] + DoubleBody([]);
    assert DoubleBody([92]) == [92, 92] + DoubleBody([]);
  }
}
