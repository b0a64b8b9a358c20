/** Strings as the matcher sees them: sequences of code points. */
module Text {

  /** `w` is found in `text` at offset `i`. */
  predicate OccursAt(w: string, text: string, i: int) {
    0 <= i && i + |w| <= |text| && text[i..i + |w|] == w
  }

  lemma SliceOfSlice(s: string, lo: nat, hi: nat, p: nat, q: nat)
    requires lo <= hi <= |s| && p <= q <= hi - lo
    ensures s[lo..hi][p..q] == s[lo + p..lo + q]
  {
    var window := s[lo..hi];
    assert forall k :: 0 <= k < |window| ==> window[k] == s[lo + k];
  }

  lemma SliceOfPrefix(x: string, y: string, p: nat, q: nat)
    requires p <= q <= |x|
    ensures (x + y)[p..q] == x[p..q]
  {
  }

  function LowerChar(c: char): char {
    if 'A' <= c <= 'Z' then c + (32 as char) else c
  }

  /** Lowercases ASCII letters only; every other code point is kept, so offsets are kept. */
  function AsciiLower(text: string): (r: string)
    ensures |r| == |text|
    ensures forall i :: 0 <= i < |text| ==> r[i] == LowerChar(text[i])
  {
    seq(|text|, i requires 0 <= i < |text| => LowerChar(text[i]))
  }

  lemma AsciiLowerSlice(text: string, a: nat, b: nat)
    requires a <= b <= |text|
    ensures AsciiLower(text[a..b]) == AsciiLower(text)[a..b]
  {
  }

  /** The `k`th letter of the ASCII alphabet that starts at `first`. */
  function Letter(first: char, k: nat): char
    requires k < 26 && first in {'A', 'a'}
  {
    first + (k as char)
  }

  /** The capital and the small form of one ASCII letter. */
  ghost predicate CasePartners(c: char, d: char) {
    exists k: nat :: k < 26 &&
      ((c == Letter('A', k) && d == Letter('a', k)) || (c == Letter('a', k) && d == Letter('A', k)))
  }

  /** Equal character by character, up to the case of ASCII letters. */
  ghost predicate SameButForCase(v: string, w: string) {
    |v| == |w| && forall i :: 0 <= i < |v| ==> v[i] == w[i] || CasePartners(v[i], w[i])
  }

  lemma LowerCharsAgree(c: char, d: char)
    ensures LowerChar(c) == LowerChar(d) <==> c == d || CasePartners(c, d)
  {
    if LowerChar(c) == LowerChar(d) && c != d {
      var k := LowerChar(c) as int - 'a' as int;
      assert {Letter('A', k), Letter('a', k)} == {c, d};
    }
  }

  /** Lowering identifies exactly the texts that differ in the case of ASCII letters alone. */
  lemma LoweredAgree(v: string, w: string)
    ensures AsciiLower(v) == AsciiLower(w) <==> SameButForCase(v, w)
  {
    hide LowerChar, CasePartners;
    forall c, d ensures LowerChar(c) == LowerChar(d) <==> c == d || CasePartners(c, d) {
      LowerCharsAgree(c, d);
    }
    if AsciiLower(v) == AsciiLower(w) {
      assert forall i :: 0 <= i < |v| ==> LowerChar(v[i]) == AsciiLower(v)[i] == AsciiLower(w)[i] == LowerChar(w[i]);
    }
  }

  /** Code-point order on strings, as used to sort rule identifiers. */
  predicate StringLess(a: string, b: string) {
    b != "" && (a == "" || a[0] < b[0] || (a[0] == b[0] && StringLess(a[1..], b[1..])))
  }

  lemma StringLessTotal(a: string, b: string)
    ensures StringLess(a, b) || a == b || StringLess(b, a)
  {
    if a != "" && b != "" && a[0] == b[0] {
      StringLessTotal(a[1..], b[1..]);
      assert a == [a[0]] + a[1..] && b == [b[0]] + b[1..];
    }
  }

  lemma StringLessTransitive(a: string, b: string, c: string)
    requires StringLess(a, b) && StringLess(b, c)
    ensures StringLess(a, c)
  {
  }

  lemma StringLessAsymmetric(a: string, b: string)
    requires StringLess(a, b)
    ensures !StringLess(b, a)
  {
  }

  lemma StringLessIrreflexive(a: string)
    ensures !StringLess(a, a)
  {
  }

  /** Spelled out: after a common beginning the lesser string ends or has the lesser character. */
  ghost predicate FirstDifference(a: string, b: string, k: nat) {
    && k <= |a| && k < |b| && a[..k] == b[..k]
    && (k == |a| || a[k] < b[k])
  }

  lemma {:induction false} LessAtFirstDifference(a: string, b: string)
    ensures StringLess(a, b) <==> exists k: nat :: FirstDifference(a, b, k)
  {
    if b == "" {
    } else if a == "" || a[0] != b[0] {
      assert StringLess(a, b) ==> FirstDifference(a, b, 0);
      forall k: nat | FirstDifference(a, b, k) ensures StringLess(a, b) {
        assert k > 0 ==> a[..k][0] == b[..k][0];
      }
    } else {
      LessAtFirstDifference(a[1..], b[1..]);
      if k: nat :| FirstDifference(a[1..], b[1..], k) {
        assert a[..k + 1] == [a[0]] + a[1..][..k] && b[..k + 1] == [b[0]] + b[1..][..k];
        assert FirstDifference(a, b, k + 1);
      }
      if k: nat :| FirstDifference(a, b, k) {
        assert k > 0;
        assert a[1..][..k - 1] == a[..k][1..] && b[1..][..k - 1] == b[..k][1..];
        assert FirstDifference(a[1..], b[1..], k - 1);
      }
    }
  }
}
