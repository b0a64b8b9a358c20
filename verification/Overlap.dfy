/** When a sensitive and a protected literal can share characters of some text. */
module Overlap {
  import opened Text

  /** A non-empty suffix of `a` is a prefix of `b`. */
  predicate BoundaryOverlap(a: string, b: string) {
    exists i :: 1 <= i <= |a| && i <= |b| && a[|a| - i..] == b[..i]
  }

  predicate Contains(whole: string, part: string) {
    exists i {:trigger OccursAt(part, whole, i)} :: 0 <= i <= |whole| && OccursAt(part, whole, i)
  }

  /** The five-way test the policy compiler makes. */
  predicate Overlaps(a: string, b: string) {
    a == b || Contains(b, a) || Contains(a, b) || BoundaryOverlap(a, b) || BoundaryOverlap(b, a)
  }

  /** `a` at offset `i` and `b` at offset `j` of `text` have a character in common. */
  ghost predicate Meet(a: string, b: string, text: string, i: int, j: int) {
    OccursAt(a, text, i) && OccursAt(b, text, j) && i < j + |b| && j < i + |a|
  }

  method FindBoundaryOverlap(a: string, b: string) returns (found: bool)
    ensures found == BoundaryOverlap(a, b)
  {
    var most := if |a| < |b| then |a| else |b|;
    for i := 1 to most + 1
      invariant forall k :: 1 <= k < i ==> a[|a| - k..] != b[..k]
    {
      if a[|a| - i..] == b[..i] {
        return true;
      }
    }
    return false;
  }

  /** The test is sound: literals that meet anywhere in any text overlap. */
  lemma MeetingOverlaps(a: string, b: string, text: string, i: int, j: int)
    requires Meet(a, b, text, i, j)
    ensures Overlaps(a, b)
  {
    if i <= j {
      MeetingInOrder(a, b, text, i, j);
    } else {
      MeetingInOrder(b, a, text, j, i);
    }
  }

  lemma MeetingInOrder(a: string, b: string, text: string, i: int, j: int)
    requires Meet(a, b, text, i, j) && i <= j
    ensures Contains(a, b) || BoundaryOverlap(a, b)
  {
    if j + |b| <= i + |a| {
      SliceOfSlice(text, i, i + |a|, j - i, j - i + |b|);
      assert OccursAt(b, a, j - i);
    } else {
      var shared := i + |a| - j;
      assert a[|a| - shared..] == text[j..j + shared] == b[..shared];
    }
  }

  /** The test is complete: literals that overlap do meet in some text. */
  lemma OverlapMeets(a: string, b: string) returns (text: string, i: int, j: int)
    requires a != "" && b != "" && Overlaps(a, b)
    ensures Meet(a, b, text, i, j)
  {
    if a == b || Contains(b, a) {
      text, j := b, 0;
      if a == b {
        i := 0;
      } else {
        i :| 0 <= i <= |b| && OccursAt(a, b, i);
      }
    } else if Contains(a, b) {
      text, i := a, 0;
      j :| 0 <= j <= |a| && OccursAt(b, a, j);
    } else if BoundaryOverlap(a, b) {
      text, i, j := Glue(a, b);
    } else {
      text, j, i := Glue(b, a);
    }
  }

  lemma Planted(before: string, w: string, after: string)
    ensures OccursAt(w, before + w + after, |before|)
  {
    assert (before + w + after)[|before|..|before| + |w|] == w;
  }

  lemma Glue(a: string, b: string) returns (text: string, i: int, j: int)
    requires BoundaryOverlap(a, b)
    ensures Meet(a, b, text, i, j)
  {
    var n :| 1 <= n <= |a| && n <= |b| && a[|a| - n..] == b[..n];
    text, i, j := a + b[n..], 0, |a| - n;
    assert a == a[..j] + b[..n] && b == b[..n] + b[n..];
    assert text == a[..j] + b;
    Planted(a[..j], b, "");
    Planted("", a, b[n..]);
    assert a[..j] + b + "" == text && "" + a + b[n..] == text;
  }

  // ---------- With ASCII case folding ----------

  function View(caseSensitive: bool, s: string): string {
    if caseSensitive then s else AsciiLower(s)
  }

  lemma ViewSlice(caseSensitive: bool, text: string, a: nat, b: nat)
    requires a <= b <= |text|
    ensures View(caseSensitive, text[a..b]) == View(caseSensitive, text)[a..b]
  {
    AsciiLowerSlice(text, a, b);
  }

  predicate FoldedOverlap(caseSensitive: bool, sensitive: string, protected: string) {
    Overlaps(View(caseSensitive, sensitive), View(caseSensitive, protected))
  }

  /** The sensitive literal, matched under its own case rule, meets the exact protected one. */
  ghost predicate MeetFolded(caseSensitive: bool, sensitive: string, protected: string, text: string, i: int, j: int) {
    && OccursAt(View(caseSensitive, sensitive), View(caseSensitive, text), i)
    && OccursAt(protected, text, j)
    && i < j + |protected| && j < i + |sensitive|
  }

  lemma MeetingFoldedOverlaps(caseSensitive: bool, sensitive: string, protected: string, text: string, i: int, j: int)
    requires MeetFolded(caseSensitive, sensitive, protected, text, i, j)
    ensures FoldedOverlap(caseSensitive, sensitive, protected)
  {
    if !caseSensitive {
      AsciiLowerSlice(text, j, j + |protected|);
    }
    MeetingOverlaps(View(caseSensitive, sensitive), View(caseSensitive, protected), View(caseSensitive, text), i, j);
  }

  lemma FoldedOverlapMeets(caseSensitive: bool, sensitive: string, protected: string) returns (text: string, i: int, j: int)
    requires sensitive != "" && protected != "" && FoldedOverlap(caseSensitive, sensitive, protected)
    ensures MeetFolded(caseSensitive, sensitive, protected, text, i, j)
  {
    hide Overlaps, OccursAt;
    text, i, j := OverlapMeets(View(caseSensitive, sensitive), View(caseSensitive, protected));
    if !caseSensitive {
      LoweredOccurs(sensitive, text, i);
      LoweredOccurs(protected, text, j);
      text := Replant(text, protected, j);
    }
  }

  lemma LoweredOccurs(w: string, text: string, i: int)
    requires OccursAt(AsciiLower(w), text, i)
    ensures OccursAt(AsciiLower(w), AsciiLower(text), i)
  {
    forall k | 0 <= k < |w| ensures AsciiLower(text)[i + k] == AsciiLower(w)[k] {
      assert text[i..i + |w|][k] == text[i + k];
      assert LowerChar(LowerChar(w[k])) == LowerChar(w[k]);
    }
    assert AsciiLower(text)[i..i + |w|] == AsciiLower(w);
  }

  /** A literal found in the lowered view can be put there in its own case. */
  lemma Replant(text: string, w: string, j: int) returns (text': string)
    requires OccursAt(AsciiLower(w), AsciiLower(text), j)
    ensures AsciiLower(text') == AsciiLower(text) && OccursAt(w, text', j)
  {
    text' := text[..j] + w + text[j + |w|..];
    Planted(text[..j], w, text[j + |w|..]);
    forall k | 0 <= k < |text| ensures LowerChar(text'[k]) == LowerChar(text[k]) {
      if j <= k < j + |w| {
        assert AsciiLower(text)[j..j + |w|][k - j] == AsciiLower(text)[k];
      }
    }
  }
}
