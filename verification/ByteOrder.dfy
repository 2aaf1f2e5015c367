/** The byte-wise lexicographic order of std::string, which is also the order of code point sequences. */
module ByteOrder {

  predicate LexLess(a: seq<int>, b: seq<int>) {
    b != [] && (a == [] || a[0] < b[0] || (a[0] == b[0] && LexLess(a[1..], b[1..])))
  }

  /** `a` comes first where the two first differ: it ends there, or has the smaller element. */
  predicate FirstDifference(a: seq<int>, b: seq<int>, k: nat) {
    && k <= |a| && k < |b| && a[..k] == b[..k] && (k == |a| || a[k] < b[k])
  }

  /** The order is decided at the first place where the two differ. */
  lemma {:induction false} LexIsFirstDifference(a: seq<int>, b: seq<int>)
    ensures LexLess(a, b) <==> exists k: nat :: FirstDifference(a, b, k)
  {
    if a == [] {
      assert b != [] ==> FirstDifference(a, b, 0);
    } else if b != [] {
      if a[0] < b[0] {
        assert FirstDifference(a, b, 0);
      } else if a[0] == b[0] {
        LexIsFirstDifference(a[1..], b[1..]);
        DifferenceMoves(a, b);
      }
      forall k: nat | FirstDifference(a, b, k) ensures a[0] <= b[0] {
        assert k > 0 ==> a[..k][0] == b[..k][0];
      }
    }
  }

  lemma DifferenceMoves(a: seq<int>, b: seq<int>)
    requires a != [] && b != [] && a[0] == b[0]
    ensures (exists k: nat :: FirstDifference(a, b, k)) <==> (exists k: nat :: FirstDifference(a[1..], b[1..], k))
  {
    forall k: nat | FirstDifference(a, b, k) ensures k > 0 && FirstDifference(a[1..], b[1..], k - 1) {
      assert a[1..][..k - 1] == a[..k][1..] && b[1..][..k - 1] == b[..k][1..];
    }
    forall k: nat | FirstDifference(a[1..], b[1..], k) ensures FirstDifference(a, b, k + 1) {
      assert a[..k + 1] == [a[0]] + a[1..][..k] && b[..k + 1] == [b[0]] + b[1..][..k];
    }
  }

  lemma {:induction false} LexAsymmetric(a: seq<int>, b: seq<int>)
    requires LexLess(a, b)
    ensures !LexLess(b, a)
  {
    if a != [] && a[0] == b[0] { LexAsymmetric(a[1..], b[1..]); }
  }

  lemma {:induction false} LexTotal(a: seq<int>, b: seq<int>)
    ensures LexLess(a, b) || LexLess(b, a) || a == b
  {
    if a != [] && b != [] && a[0] == b[0] {
      LexTotal(a[1..], b[1..]);
      assert a == [a[0]] + a[1..] && b == [b[0]] + b[1..];
    }
  }

  lemma {:induction false} LexTransitive(a: seq<int>, b: seq<int>, c: seq<int>)
    requires LexLess(a, b) && LexLess(b, c)
    ensures LexLess(a, c)
  {
    if a != [] && a[0] == b[0] && b[0] == c[0] { LexTransitive(a[1..], b[1..], c[1..]); }
  }

  lemma {:induction false} LexCommonPrefix(p: seq<int>, a: seq<int>, b: seq<int>)
    ensures LexLess(p + a, p + b) <==> LexLess(a, b)
  {
    if p == [] {
      assert p + a == a && p + b == b;
    } else {
      assert (p + a)[1..] == p[1..] + a && (p + b)[1..] == p[1..] + b;
      LexCommonPrefix(p[1..], a, b);
    }
  }
}
