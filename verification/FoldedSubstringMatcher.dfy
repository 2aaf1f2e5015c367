/**
 Searching for a term inside text, ASCII case ignored, in linear time (Knuth-Morris-Pratt over folded
 bytes). `contains` is exact, the count is the greatest number of disjoint occurrences, and the step
 counter never exceeds twice the bytes searched.
 */
module FoldedSubstringMatcher {
  import opened Prelude
  import opened Substrings

  function Fold(b: byte): byte {
    if 65 <= b <= 90 then b + 32 else b
  }

  function Folded(s: Bytes): (r: Bytes)
    ensures |r| == |s|
    ensures forall i :: 0 <= i < |s| ==> r[i] == Fold(s[i])
  {
    seq(|s|, i requires 0 <= i < |s| => Fold(s[i]))
  }

  // ---------------------------------------------------------------- what a match is

  /** The same byte, or one ASCII letter in its two cases. */
  predicate SameLetter(a: byte, b: byte) {
    a == b || (65 <= a <= 90 && b == a + 32) || (65 <= b <= 90 && a == b + 32)
  }

  /** The term stands at `s` in the text, letter for letter. */
  predicate MatchesAt(term: Bytes, text: Bytes, s: int) {
    0 <= s <= |text| - |term| && forall i :: 0 <= i < |term| ==> SameLetter(term[i], text[s + i])
  }

  /** Matches that do not overlap, from left to right. */
  ghost predicate DisjointMatches(term: Bytes, text: Bytes, starts: seq<int>) {
    && (forall i :: 0 <= i < |starts| ==> MatchesAt(term, text, starts[i]))
    && (forall i, j :: 0 <= i < j < |starts| ==> starts[i] + |term| <= starts[j])
  }

  lemma FoldedAlike(a: byte, b: byte)
    ensures Fold(a) == Fold(b) <==> SameLetter(a, b)
  {
  }

  /** Folding both sides and comparing bytes is matching letters. */
  lemma FoldedMatch(term: Bytes, text: Bytes, s: int)
    ensures OccursAt(Folded(term), Folded(text), s) <==> MatchesAt(term, text, s)
  {
    var t, u := Folded(term), Folded(text);
    if 0 <= s <= |text| - |term| {
      forall i | 0 <= i < |term| ensures u[s..s + |t|][i] == t[i] <==> SameLetter(term[i], text[s + i]) {
        FoldedAlike(term[i], text[s + i]);
      }
      assert u[s..s + |t|] == t <==> forall i :: 0 <= i < |t| ==> u[s..s + |t|][i] == t[i];
    }
  }

  // ---------------------------------------------------------------- borders

  /** The last `k` bytes of `text` are the first `k` bytes of `term`. */
  predicate Overlap(term: Bytes, text: Bytes, k: int) {
    0 <= k <= |term| && k <= |text| && term[..k] == text[|text| - k..]
  }

  /** `k` is the longest overlap of at most `limit` bytes. */
  ghost predicate LongestOverlap(term: Bytes, text: Bytes, k: int, limit: int) {
    Overlap(term, text, k) && forall j :: k < j <= limit ==> !Overlap(term, text, j)
  }

  /** `k` is the length of the longest proper prefix of the first `n` bytes that is also their suffix. */
  ghost predicate LongestBorder(term: Bytes, n: int, k: int)
    requires 0 < n <= |term|
  {
    k < n && LongestOverlap(term, term[..n], k, n - 1)
  }

  ghost predicate FailureTable(term: Bytes, failure: seq<nat>) {
    |failure| == |term| && forall i :: 0 <= i < |term| ==> LongestBorder(term, i + 1, failure[i])
  }

  /** The table is right for the first `n` prefixes. */
  ghost predicate FailureTo(term: Bytes, failure: seq<nat>, n: nat) {
    n <= |term| && n <= |failure| && forall i :: 0 <= i < n ==> LongestBorder(term, i + 1, failure[i])
  }

  /** Extending the text by one byte extends exactly the overlaps that byte continues. */
  lemma OverlapExtends(term: Bytes, text: Bytes, c: byte, k: nat)
    requires k < |term|
    ensures Overlap(term, text + [c], k + 1) <==> Overlap(term, text, k) && term[k] == c
  {
    var text' := text + [c];
    if k <= |text| {
      assert text'[|text'| - (k + 1)..] == text[|text| - k..] + [c];
      assert term[..k + 1] == term[..k] + [term[k]];
      if term[..k + 1] == text'[|text'| - (k + 1)..] {
        assert term[..k] == term[..k + 1][..k] == text'[|text'| - (k + 1)..][..k] == text[|text| - k..];
        assert term[k] == term[..k + 1][k];
      }
    }
  }

  /** The overlaps shorter than a known one are the overlaps of the term's own prefix. */
  lemma ShorterOverlap(term: Bytes, text: Bytes, m: nat, k: nat)
    requires Overlap(term, text, m) && k <= m
    ensures Overlap(term, text, k) <==> Overlap(term, term[..m], k)
  {
    assert term[..m][m - k..] == text[|text| - m..][m - k..] == text[|text| - k..];
  }

  /** Falling back once from `m` skips no overlap that the next byte could extend. */
  lemma FallBack(term: Bytes, failure: seq<nat>, text: Bytes, m: nat)
    requires 0 < m && FailureTo(term, failure, m) && Overlap(term, text, m)
    ensures Overlap(term, text, failure[m - 1]) && failure[m - 1] < m
    ensures forall k :: failure[m - 1] < k < m ==> !Overlap(term, text, k)
  {
    assert LongestBorder(term, m, failure[m - 1]);
    ShorterOverlap(term, text, m, failure[m - 1]);
    forall k | failure[m - 1] < k < m ensures !Overlap(term, text, k) {
      ShorterOverlap(term, text, m, k);
    }
  }

  /** Every overlap longer than `m`, up to `limit`, does not continue with `c`. */
  ghost predicate NoneContinues(term: Bytes, text: Bytes, c: byte, m: nat, limit: nat) {
    forall k :: m < k <= limit && k < |term| && Overlap(term, text, k) ==> term[k] != c
  }

  /** The longest overlap after the next byte, once falling back has stopped at `m`. */
  lemma Advanced(term: Bytes, text: Bytes, c: byte, m: nat, limit: nat)
    requires m <= limit < |term| && Overlap(term, text, m)
    requires NoneContinues(term, text, c, m, limit)
    requires m == 0 || term[m] == c
    ensures var m' := if term[m] == c then m + 1 else m;
            LongestOverlap(term, text + [c], m', limit + 1)
  {
    var m' := if term[m] == c then m + 1 else m;
    OverlapExtends(term, text, c, m);
    if m' == 0 {
      assert term[..0] == (text + [c])[|text| + 1..];
    }
    forall j | m' < j <= limit + 1 ensures !Overlap(term, text + [c], j) {
      OverlapExtends(term, text, c, j - 1);
    }
  }

  /** One round of the inner loop: follow the failure table until the byte continues an overlap. */
  method Advance(term: Bytes, failure: seq<nat>, ghost text: Bytes, c: byte, start: nat, ghost limit: nat)
    returns (matched: nat, falls: nat)
    requires start <= limit < |term| && FailureTo(term, failure, limit)
    requires LongestOverlap(term, text, start, limit)
    ensures LongestOverlap(term, text + [c], matched, limit + 1)
    ensures matched + falls <= start + 1
  {
    matched, falls := start, 0;
    while matched > 0 && term[matched] != c
      invariant matched <= start && matched + falls <= start
      invariant Overlap(term, text, matched)
      invariant NoneContinues(term, text, c, matched, limit)
    {
      FallBack(term, failure, text, matched);
      matched := failure[matched - 1];
      falls := falls + 1;
    }
    Advanced(term, text, c, matched, limit);
    if term[matched] == c {
      matched := matched + 1;
    }
  }

  // ---------------------------------------------------------------- disjoint occurrences

  /** Starts of pairwise disjoint occurrences of the term at or after `from`, ascending. */
  ghost predicate Disjoint(term: Bytes, text: Bytes, from: nat, starts: seq<int>) {
    && (forall i :: 0 <= i < |starts| ==> from <= starts[i] && OccursAt(term, text, starts[i]))
    && (forall i, j :: 0 <= i < j < |starts| ==> starts[i] + |term| <= starts[j])
  }

  /** Take the leftmost occurrence at or after `from`, then go on behind it. */
  function Greedy(term: Bytes, text: Bytes, from: nat): seq<int>
    requires term != []
    decreases |text| - from
  {
    if from + |term| > |text| then []
    else if OccursAt(term, text, from) then [from] + Greedy(term, text, from + |term|)
    else Greedy(term, text, from + 1)
  }

  lemma DisjointCons(term: Bytes, text: Bytes, from: nat, rest: seq<int>)
    requires OccursAt(term, text, from) && Disjoint(term, text, from + |term|, rest)
    ensures Disjoint(term, text, from, [from] + rest)
  {
    var starts := [from] + rest;
    forall i, j | 0 <= i < j < |starts| ensures starts[i] + |term| <= starts[j] {
      assert starts[j] == rest[j - 1];
      if i > 0 {
        assert starts[i] == rest[i - 1];
      }
    }
  }

  lemma {:induction false} GreedyIsDisjoint(term: Bytes, text: Bytes, from: nat)
    requires term != []
    ensures Disjoint(term, text, from, Greedy(term, text, from))
    decreases |text| - from
  {
    if from + |term| > |text| {
    } else if OccursAt(term, text, from) {
      GreedyIsDisjoint(term, text, from + |term|);
      DisjointCons(term, text, from, Greedy(term, text, from + |term|));
    } else {
      GreedyIsDisjoint(term, text, from + 1);
    }
  }

  lemma DisjointTail(term: Bytes, text: Bytes, from: nat, starts: seq<int>)
    requires Disjoint(term, text, from, starts) && starts != []
    ensures Disjoint(term, text, from + |term|, starts[1..])
    ensures starts[0] != from ==> Disjoint(term, text, from + 1, starts)
    ensures from <= starts[0] && OccursAt(term, text, starts[0])
  {
    forall i | 0 <= i < |starts| ensures starts[0] <= starts[i] {
      assert i > 0 ==> starts[0] + |term| <= starts[i];
    }
    assert forall i :: 0 <= i < |starts| - 1 ==> starts[1..][i] == starts[i + 1];
  }

  /** No choice of pairwise disjoint occurrences is larger than the leftmost-greedy one. */
  lemma {:induction false} GreedyIsMaximum(term: Bytes, text: Bytes, from: nat, starts: seq<int>)
    requires term != [] && Disjoint(term, text, from, starts)
    ensures |starts| <= |Greedy(term, text, from)|
    decreases |text| - from
  {
    if starts != [] {
      DisjointTail(term, text, from, starts);
      if OccursAt(term, text, from) {
        GreedyIsMaximum(term, text, from + |term|, starts[1..]);
      } else {
        GreedyIsMaximum(term, text, from + 1, starts);
      }
    }
  }

  /** No occurrence that starts at or after `from` ends at or before `to`. */
  ghost predicate NoneEnding(term: Bytes, text: Bytes, from: nat, to: int) {
    forall s :: from <= s && s + |term| <= to ==> !OccursAt(term, text, s)
  }

  /** The first occurrence to end, with byte `n`, is the one the greedy choice takes next. */
  lemma {:induction false} GreedyTakes(term: Bytes, text: Bytes, from: nat, n: nat)
    requires term != [] && from + |term| <= n + 1 && OccursAt(term, text, n + 1 - |term|)
    requires NoneEnding(term, text, from, n)
    ensures |Greedy(term, text, from)| == 1 + |Greedy(term, text, n + 1)|
    decreases n - from
  {
    if from + |term| <= n {
      assert !OccursAt(term, text, from);
      GreedyTakes(term, text, from + 1, n);
    }
  }

  lemma {:induction false} GreedyStops(term: Bytes, text: Bytes, from: nat)
    requires term != [] && NoneEnding(term, text, from, |text|)
    ensures Greedy(term, text, from) == []
    decreases |text| - from
  {
    if from + |term| <= |text| {
      assert !OccursAt(term, text, from);
      GreedyStops(term, text, from + 1);
    }
  }

  /** An overlap of the whole term with `text[from..end]` is an occurrence that ends at `end`, and back. */
  lemma WholeOverlap(term: Bytes, text: Bytes, from: nat, end: nat)
    requires from <= end <= |text|
    ensures Overlap(term, text[from..end], |term|) <==> from + |term| <= end && OccursAt(term, text, end - |term|)
  {
    assert term[..|term|] == term;
    if from + |term| <= end {
      assert text[from..end][end - from - |term|..] == text[end - |term|..end];
    }
  }

  /** A longest overlap shorter than the term: no occurrence ends with this byte. */
  lemma NoneEndingStep(term: Bytes, text: Bytes, from: nat, n: nat, matched: nat)
    requires from <= n < |text| && NoneEnding(term, text, from, n)
    requires matched < |term| && LongestOverlap(term, text[from..n + 1], matched, |term|)
    ensures NoneEnding(term, text, from, n + 1)
  {
    WholeOverlap(term, text, from, n + 1);
    forall s | from <= s && s + |term| <= n + 1 ensures !OccursAt(term, text, s) {
      if s + |term| == n + 1 {
        assert s == n + 1 - |term|;
      }
    }
  }

  // ---------------------------------------------------------------- the loops

  /** The failure table of the term: the longest proper border of every prefix. */
  method BuildFailure(term: Bytes) returns (failure: seq<nat>)
    ensures FailureTable(term, failure)
  {
    failure := seq(|term|, _ => 0);
    if term == [] {
      return;
    }
    var matched := 0;
    var i := 1;
    assert Overlap(term, term[..1], 0);
    while i < |term|
      invariant 1 <= i <= |term| && |failure| == |term|
      invariant FailureTo(term, failure, i)
      invariant matched == failure[i - 1]
    {
      assert LongestBorder(term, i, matched);
      assert term[..i] + [term[i]] == term[..i + 1];
      var falls;
      matched, falls := Advance(term, failure, term[..i], term[i], matched, i - 1);
      failure := failure[i := matched];
      i := i + 1;
    }
  }

  /** Consumes one byte of text: falls back and advances, and reports the steps it took. */
  method Consume(term: Bytes, failure: seq<nat>, text: Bytes, ghost from: nat, n: nat, start: nat)
    returns (matched: nat, taken: nat)
    requires term != [] && FailureTable(term, failure) && from <= n < |text|
    requires start < |term| && LongestOverlap(term, Folded(text)[from..n], start, |term| - 1)
    ensures LongestOverlap(term, Folded(text)[from..n + 1], matched, |term|)
    ensures 1 <= taken && taken + matched <= start + 2
  {
    ghost var t := Folded(text);
    assert t[from..n + 1] == t[from..n] + [Fold(text[n])];
    var falls;
    matched, falls := Advance(term, failure, t[from..n], Fold(text[n]), start, |term| - 1);
    taken := 1 + falls;
  }

  lemma NothingMatched(term: Bytes, text: Bytes, n: nat)
    requires term != [] && n <= |text|
    ensures LongestOverlap(term, text[n..n], 0, |term| - 1)
  {
  }

  /** The search loop: whether the term occurs, and the steps taken to tell. */
  method Search(term: Bytes, failure: seq<nat>, text: Bytes) returns (found: bool, taken: nat)
    requires term != [] && FailureTable(term, failure)
    ensures found <==> Occurs(term, Folded(text))
    ensures taken <= 2 * |text|
  {
    ghost var t := Folded(text);
    taken := 0;
    var matched := 0;
    var n := 0;
    NothingMatched(term, t, 0);
    while n < |text|
      invariant 0 <= n <= |text| && matched < |term|
      invariant LongestOverlap(term, t[0..n], matched, |term| - 1)
      invariant NoneEnding(term, t, 0, n)
      invariant taken + matched <= 2 * n
    {
      var more;
      matched, more := Consume(term, failure, text, 0, n, matched);
      taken := taken + more;
      if matched == |term| {
        WholeOverlap(term, t, 0, n + 1);
        assert OccursAt(term, t, n + 1 - |term|);
        return true, taken;
      }
      NoneEndingStep(term, t, 0, n, matched);
      n := n + 1;
    }
    return false, taken;
  }

  /** A whole match is the greedy choice's next occurrence, and the scan starts afresh behind it. */
  lemma MatchCounts(term: Bytes, text: Bytes, from: nat, n: nat)
    requires term != [] && from <= n < |text| && Overlap(term, text[from..n + 1], |term|)
    requires NoneEnding(term, text, from, n)
    ensures |Greedy(term, text, from)| == 1 + |Greedy(term, text, n + 1)|
    ensures NoneEnding(term, text, n + 1, n + 1)
    ensures LongestOverlap(term, text[n + 1..n + 1], 0, |term| - 1)
  {
    WholeOverlap(term, text, from, n + 1);
    GreedyTakes(term, text, from, n);
    NothingMatched(term, text, n + 1);
  }

  /** What the counting loop knows: nothing is pending but the overlap it carries. */
  ghost predicate Counting(term: Bytes, text: Bytes, from: nat, n: nat, matched: nat, left: nat) {
    && term != [] && from <= n <= |text| && matched < |term|
    && LongestOverlap(term, text[from..n], matched, |term| - 1)
    && NoneEnding(term, text, from, n) && left == |Greedy(term, text, from)|
  }

  lemma CountingStarts(term: Bytes, text: Bytes)
    requires term != []
    ensures Counting(term, text, 0, 0, 0, |Greedy(term, text, 0)|)
  {
    NothingMatched(term, text, 0);
  }

  lemma CountingMatches(term: Bytes, text: Bytes, from: nat, n: nat, start: nat, left: nat)
    requires Counting(term, text, from, n, start, left) && n < |text|
    requires Overlap(term, text[from..n + 1], |term|)
    ensures left > 0 && Counting(term, text, n + 1, n + 1, 0, left - 1)
  {
    MatchCounts(term, text, from, n);
  }

  lemma CountingGoesOn(term: Bytes, text: Bytes, from: nat, n: nat, start: nat, matched: nat, left: nat)
    requires Counting(term, text, from, n, start, left) && n < |text|
    requires matched < |term| && LongestOverlap(term, text[from..n + 1], matched, |term|)
    ensures Counting(term, text, from, n + 1, matched, left)
  {
    NoneEndingStep(term, text, from, n, matched);
  }

  lemma CountingEnds(term: Bytes, text: Bytes, from: nat, matched: nat, left: nat)
    requires Counting(term, text, from, |text|, matched, left)
    ensures left == 0
  {
    GreedyStops(term, text, from);
  }

  /** What is known after `n` bytes of counting towards `total`, with the steps taken so far. */
  ghost predicate CountedTo(term: Bytes, text: Bytes, from: nat, n: nat, matched: nat, count: nat, taken: nat, total: nat) {
    count <= total && Counting(term, text, from, n, matched, total - count) && taken + matched <= 2 * n
  }

  lemma CountedMatches(term: Bytes, text: Bytes, from: nat, n: nat, start: nat, count: nat, taken: nat, more: nat, total: nat)
    requires CountedTo(term, text, from, n, start, count, taken, total) && n < |text|
    requires Overlap(term, text[from..n + 1], |term|) && more <= start + 2
    ensures CountedTo(term, text, n + 1, n + 1, 0, count + 1, taken + more, total)
  {
    CountingMatches(term, text, from, n, start, total - count);
  }

  lemma CountedGoesOn(term: Bytes, text: Bytes, from: nat, n: nat, start: nat, matched: nat, count: nat, taken: nat, more: nat,
                      total: nat)
    requires CountedTo(term, text, from, n, start, count, taken, total) && n < |text|
    requires matched < |term| && LongestOverlap(term, text[from..n + 1], matched, |term|) && more + matched <= start + 2
    ensures CountedTo(term, text, from, n + 1, matched, count, taken + more, total)
  {
    CountingGoesOn(term, text, from, n, start, matched, total - count);
  }

  /** One round of the counting loop. */
  method CountByte(term: Bytes, failure: seq<nat>, text: Bytes, ghost from: nat, n: nat, start: nat, count: nat, taken: nat,
                   ghost total: nat)
    returns (matched: nat, count': nat, taken': nat, ghost from': nat)
    requires FailureTable(term, failure) && n < |text|
    requires CountedTo(term, Folded(text), from, n, start, count, taken, total)
    ensures CountedTo(term, Folded(text), from', n + 1, matched, count', taken', total)
  {
    var more;
    matched, more := Consume(term, failure, text, from, n, start);
    taken' := taken + more;
    if matched == |term| {
      CountedMatches(term, Folded(text), from, n, start, count, taken, more, total);
      matched, count', from' := 0, count + 1, n + 1;
    } else {
      CountedGoesOn(term, Folded(text), from, n, start, matched, count, taken, more, total);
      count', from' := count, from;
    }
  }

  lemma CountedAll(term: Bytes, text: Bytes, from: nat, matched: nat, count: nat, taken: nat, total: nat)
    requires CountedTo(term, text, from, |text|, matched, count, taken, total)
    ensures count == total && taken <= 2 * |text|
  {
    CountingEnds(term, text, from, matched, total - count);
  }

  /** The counting loop, towards the `total` that is left to count at the start. */
  method CountTowards(term: Bytes, failure: seq<nat>, text: Bytes, ghost total: nat) returns (count: nat, taken: nat)
    requires FailureTable(term, failure) && CountedTo(term, Folded(text), 0, 0, 0, 0, 0, total)
    ensures count == total && taken <= 2 * |text|
  {
    ghost var from: nat := 0;
    count, taken := 0, 0;
    var matched := 0;
    var n := 0;
    while n < |text|
      invariant 0 <= n <= |text|
      invariant CountedTo(term, Folded(text), from, n, matched, count, taken, total)
    {
      matched, count, taken, from := CountByte(term, failure, text, from, n, matched, count, taken, total);
      n := n + 1;
    }
    CountedAll(term, Folded(text), from, matched, count, taken, total);
  }

  /** The size of the leftmost-greedy choice, and the steps taken to count it. */
  method Count(term: Bytes, failure: seq<nat>, text: Bytes) returns (count: nat, taken: nat)
    requires term != [] && FailureTable(term, failure)
    ensures count == |Greedy(term, Folded(text), 0)|
    ensures taken <= 2 * |text|
  {
    CountingStarts(term, Folded(text));
    count, taken := CountTowards(term, failure, text, |Greedy(term, Folded(text), 0)|);
  }

  lemma MatchesAreDisjoint(term: Bytes, text: Bytes, starts: seq<int>)
    ensures DisjointMatches(term, text, starts) <==> Disjoint(Folded(term), Folded(text), 0, starts)
  {
    forall i | 0 <= i < |starts|
      ensures OccursAt(Folded(term), Folded(text), starts[i]) <==> MatchesAt(term, text, starts[i])
    {
      FoldedMatch(term, text, starts[i]);
    }
  }

  /** The greedy count is the greatest number of matches that do not overlap. */
  lemma GreedyCountsMatches(term: Bytes, text: Bytes, count: nat)
    requires term != [] && count == |Greedy(Folded(term), Folded(text), 0)|
    ensures exists starts :: DisjointMatches(term, text, starts) && |starts| == count
    ensures forall starts :: DisjointMatches(term, text, starts) ==> |starts| <= count
  {
    var greedy := Greedy(Folded(term), Folded(text), 0);
    GreedyIsDisjoint(Folded(term), Folded(text), 0);
    MatchesAreDisjoint(term, text, greedy);
    assert DisjointMatches(term, text, greedy) && |greedy| == count;
    forall starts | DisjointMatches(term, text, starts) ensures |starts| <= count {
      MatchesAreDisjoint(term, text, starts);
      GreedyIsMaximum(Folded(term), Folded(text), 0, starts);
    }
  }

  lemma OccursIsMatch(term: Bytes, text: Bytes)
    ensures Occurs(Folded(term), Folded(text)) <==> exists s :: MatchesAt(term, text, s)
  {
    if s :| 0 <= s <= |text| && OccursAt(Folded(term), Folded(text), s) {
      FoldedMatch(term, text, s);
    }
    forall s | MatchesAt(term, text, s) ensures Occurs(Folded(term), Folded(text)) {
      FoldedMatch(term, text, s);
    }
  }

  class Matcher {
    /** What is searched for, in any case. */
    ghost const term: Bytes

    var folded: Bytes
    var failure: seq<nat>
    var steps: nat

    ghost predicate Valid()
      reads this
    {
      folded == Folded(term) && FailureTable(folded, failure)
    }

    constructor (term: Bytes)
      ensures Valid() && this.term == term && steps == 0
    {
      this.term := term;
      var f: Bytes := [];
      var n := 0;
      while n < |term|
        invariant 0 <= n <= |term| && |f| == n
        invariant forall i :: 0 <= i < n ==> f[i] == Fold(term[i])
      {
        f := f + [Fold(term[n])];
        n := n + 1;
      }
      var table := BuildFailure(f);
      folded, failure, steps := f, table, 0;
    }

    /** Whether the text holds the term in any case; at most two steps per byte of text. */
    method Contains(text: Bytes) returns (found: bool)
      requires Valid()
      modifies this`steps
      ensures found <==> exists s :: MatchesAt(term, text, s)
      ensures old(steps) <= steps <= old(steps) + 2 * |text|
    {
      if folded == [] {
        assert MatchesAt(term, text, 0);
        return true;
      }
      OccursIsMatch(term, text);
      var taken;
      found, taken := Search(folded, failure, text);
      steps := steps + taken;
    }

    /** The greatest number of disjoint occurrences of the term in the text; 0 for an empty term. */
    method CountNonOverlapping(text: Bytes) returns (count: nat)
      requires Valid()
      modifies this`steps
      ensures term == [] ==> count == 0
      ensures term != [] ==> exists starts :: DisjointMatches(term, text, starts) && |starts| == count
      ensures term != [] ==> forall starts :: DisjointMatches(term, text, starts) ==> |starts| <= count
      ensures old(steps) <= steps <= old(steps) + 2 * |text|
    {
      if folded == [] {
        return 0;
      }
      var taken;
      count, taken := Count(folded, failure, text);
      GreedyCountsMatches(term, text, count);
      steps := steps + taken;
    }
  }
}
