/** When replacement changes how often a protected literal occurs: exactly when it already does so
    for some short text. */
module CountSafety {
  import opened Text
  import opened Selection
  import opened Replacement
  import opened Matching
  import opened OutputSafety
  import opened CorpusVerification

  // ---------- Counting ----------

  lemma {:induction false} NothingToCount(w: string, text: string)
    requires w != "" && forall i :: !OccursAt(w, text, i)
    ensures CountIn(w, text) == 0
    decreases |text|
  {
    if |w| <= |text| {
      assert !OccursAt(w, text, 0);
      forall i ensures !OccursAt(w, text[1..], i) {
        OccursLater(w, text, 1, i);
      }
      NothingToCount(w, text[1..]);
    }
  }

  lemma OccursLater(w: string, text: string, n: nat, i: int)
    requires n <= |text|
    ensures i >= 0 ==> (OccursAt(w, text[n..], i) <==> OccursAt(w, text, n + i))
    ensures i < 0 ==> !OccursAt(w, text[n..], i)
  {
    if 0 <= i && i + |w| <= |text| - n {
      assert text[n..][i..i + |w|] == text[n + i..n + i + |w|];
    }
  }

  lemma {:induction false} SomethingToCount(w: string, text: string, i: int)
    requires w != "" && OccursAt(w, text, i)
    ensures CountIn(w, text) >= 1
    decreases |text|
  {
    if text[..|w|] != w {
      assert i > 0;
      OccursLater(w, text, 1, i - 1);
      SomethingToCount(w, text[1..], i - 1);
    }
  }

  /** A stretch that no occurrence touches separates the counts on its two sides. */
  lemma {:induction false} CountAround(w: string, x: string, m: string, y: string)
    requires w != "" && m != ""
    requires forall i :: OccursAt(w, x + m + y, i) ==> i + |w| <= |x| || |x| + |m| <= i
    ensures CountIn(w, x + m + y) == CountIn(w, x) + CountIn(w, y)
    decreases |x| + |m|
  {
    var text := x + m + y;
    if x == "" {
      assert text == m + y;
      assert !OccursAt(w, text, 0);
      assert text[1..] == m[1..] + y;
      if m[1..] == "" {
        assert text[1..] == y;
      } else {
        forall i | OccursAt(w, "" + m[1..] + y, i) ensures |m[1..]| <= i {
          assert "" + m[1..] + y == text[1..];
          OccursLater(w, text, 1, i);
        }
        CountAround(w, "", m[1..], y);
        assert "" + m[1..] + y == text[1..];
      }
    } else if OccursAt(w, text, 0) {
      assert x[..|w|] == text[..|w|] == w;
      SkipInto(w, x, m, y, |w|);
      CountAround(w, x[|w|..], m, y);
    } else {
      assert |x| >= |w| ==> x[..|w|] == text[..|w|];
      SkipInto(w, x, m, y, 1);
      CountAround(w, x[1..], m, y);
    }
  }

  lemma SkipInto(w: string, x: string, m: string, y: string, n: nat)
    requires n <= |x| && forall i :: OccursAt(w, x + m + y, i) ==> i + |w| <= |x| || |x| + |m| <= i
    ensures x[n..] + m + y == (x + m + y)[n..]
    ensures forall i :: OccursAt(w, x[n..] + m + y, i) ==> i + |w| <= |x[n..]| || |x[n..]| + |m| <= i
  {
    assert x[n..] + m + y == (x + m + y)[n..];
    forall i | OccursAt(w, x[n..] + m + y, i) ensures i + |w| <= |x[n..]| || |x[n..]| + |m| <= i {
      OccursLater(w, x + m + y, n, i);
    }
  }

  // ---------- Kept occurrences ----------

  /** The occurrence of `w` at `i` of the output is text between two spans. */
  ghost predicate KeptAt(w: string, text: string, spans: seq<Span>, cursor: nat, i: int, k: nat, a: nat) {
    && cursor <= a && a + |w| <= |text| && CutAt(spans, k, a) && CutAt(spans, k, a + |w|)
    && Within(spans[..k], cursor, text[..a]) && |Weave(text[..a], spans[..k], cursor)| == i
  }

  ghost predicate AllKept(w: string, text: string, spans: seq<Span>, cursor: nat)
    requires Within(spans, cursor, text)
  {
    forall i :: OccursAt(w, Weave(text, spans, cursor), i) ==> exists k, a :: KeptAt(w, text, spans, cursor, i, k, a)
  }

  /** No span touches an occurrence of `w` from `cursor` on. */
  ghost predicate Spared(w: string, text: string, spans: seq<Span>, cursor: nat) {
    forall i :: OccursAt(w, text, i) && cursor <= i ==> Untouched(spans, i, i + |w|)
  }

  ghost predicate NoneEmpty(spans: seq<Span>) {
    forall s :: s in spans ==> s.start < s.end && s.replacement != ""
  }

  /** If no span touches an occurrence and every occurrence in the output is kept text, the counts
      agree. */
  lemma {:induction false} KeptCountsAgree(w: string, text: string, spans: seq<Span>, cursor: nat)
    requires w != "" && Within(spans, cursor, text) && NoneEmpty(spans)
    requires Spared(w, text, spans, cursor) && AllKept(w, text, spans, cursor)
    ensures CountIn(w, text[cursor..]) == CountIn(w, Weave(text, spans, cursor))
    decreases |spans|
  {
    if spans != [] {
      var s := spans[0];
      SpansFollow(spans, cursor, text);
      WeaveHead(text, spans, cursor);
      var head, rest := text[cursor..s.start], Weave(text, spans[1..], s.end);
      hide CountIn, Weave, Within;
      assert s in spans;
      SparedHead(w, text, spans, cursor);
      CountAround(w, head, text[s.start..s.end], text[s.end..]);
      assert head + text[s.start..s.end] + text[s.end..] == text[cursor..];
      KeptHead(w, text, spans, cursor);
      CountAround(w, head, s.replacement, rest);
      KeptCountsAgree(w, text, spans[1..], s.end);
    }
  }

  lemma SparedHead(w: string, text: string, spans: seq<Span>, cursor: nat)
    requires spans != [] && cursor <= spans[0].start < spans[0].end <= |text|
    requires Spared(w, text, spans, cursor) && NoneEmpty(spans)
    ensures Spared(w, text, spans[1..], spans[0].end) && NoneEmpty(spans[1..])
    ensures var x, m, y := text[cursor..spans[0].start], text[spans[0].start..spans[0].end], text[spans[0].end..];
      forall i :: OccursAt(w, x + m + y, i) ==> i + |w| <= |x| || |x| + |m| <= i
  {
    var x, m, y := text[cursor..spans[0].start], text[spans[0].start..spans[0].end], text[spans[0].end..];
    assert x + m + y == text[cursor..];
    assert spans[0] in spans;
    forall i | OccursAt(w, x + m + y, i) ensures i + |w| <= |x| || |x| + |m| <= i {
      OccursLater(w, text, cursor, i);
      assert Untouched(spans, cursor + i, cursor + i + |w|);
    }
    forall i | OccursAt(w, text, i) && spans[0].end <= i ensures Untouched(spans[1..], i, i + |w|) {
      assert Untouched(spans, i, i + |w|);
    }
  }

  lemma KeptHead(w: string, text: string, spans: seq<Span>, cursor: nat)
    requires w != "" && Within(spans, cursor, text) && spans != [] && NoneEmpty(spans) && AllKept(w, text, spans, cursor)
    ensures Within(spans[1..], spans[0].end, text) && AllKept(w, text, spans[1..], spans[0].end)
    ensures cursor <= spans[0].start <= |text|
    ensures var x, m, y := text[cursor..spans[0].start], spans[0].replacement, Weave(text, spans[1..], spans[0].end);
      forall i :: OccursAt(w, x + m + y, i) ==> i + |w| <= |x| || |x| + |m| <= i
  {
    SpansFollow(spans, cursor, text);
    WeaveHead(text, spans, cursor);
    var s := spans[0];
    var x, m, y := text[cursor..s.start], s.replacement, Weave(text, spans[1..], s.end);
    hide Weave, Within, KeptAt;
    forall i | OccursAt(w, x + m + y, i)
      ensures i + |w| <= |x| || |x| + |m| <= i
    {
      var k: nat, a: nat :| KeptAt(w, text, spans, cursor, i, k, a);
      KeptPlace(w, text, spans, cursor, i, k, a);
    }
    forall i | OccursAt(w, y, i)
      ensures exists k, a :: KeptAt(w, text, spans[1..], s.end, i, k, a)
    {
      OccursAfter(w, x + m, y, i);
      var k: nat, a: nat :| KeptAt(w, text, spans, cursor, |x + m| + i, k, a);
      KeptPlace(w, text, spans, cursor, |x + m| + i, k, a);
      assert KeptAt(w, text, spans[1..], s.end, i, k - 1, a);
    }
  }

  /** A kept occurrence lies before the first span, or after it and then it is kept in the rest. */
  lemma KeptPlace(w: string, text: string, spans: seq<Span>, cursor: nat, i: int, k: nat, a: nat)
    requires w != "" && spans != [] && cursor <= spans[0].start <= spans[0].end <= |text|
    requires KeptAt(w, text, spans, cursor, i, k, a)
    ensures var n := spans[0].start - cursor;
      if k == 0 then i + |w| <= n
      else n + |spans[0].replacement| <= i
           && KeptAt(w, text, spans[1..], spans[0].end, i - n - |spans[0].replacement|, k - 1, a)
  {
    if k == 0 {
      assert spans[..0] == [] && Weave(text[..a], [], cursor) == text[..a][cursor..];
    } else {
      CutTail(spans, k, a);
      CutTail(spans, k, a + |w|);
      CutBound(spans, k, a);
      PrefixFurther(text, spans, cursor, k - 1, a);
    }
  }

  // ---------- A short text tells ----------

  /** Matches never touch the literal, in any text. */
  ghost predicate NeverTouched(ps: Patterns, w: string) {
    forall text, h, j :: ps.Matches(text, h) && OccursAt(w, text, j) ==> h.end <= j || j + |w| <= h.start
  }

  lemma {:induction false} GapHolds(spans: seq<Span>, a: int, b: int, x: int, n: int)
    requires Untouched(spans, x, x + n) && n > 0 && a <= x && x + n <= b && Ordered(spans, a, b)
    ensures KeptIn(spans, a, b) >= n
    decreases |spans|
  {
    if spans != [] {
      assert spans[0] in spans;
      if x + n <= spans[0].start {
        KeptIsNatural(spans[1..], spans[0].end, b);
      } else {
        GapHolds(spans[1..], spans[0].end, b, x, n);
      }
    }
  }

  /** The spans follow one another between `a` and `b`. */
  predicate Ordered(spans: seq<Span>, a: int, b: int) {
    if spans == [] then a <= b else a <= spans[0].start <= spans[0].end && Ordered(spans[1..], spans[0].end, b)
  }

  lemma KeptIsNatural(spans: seq<Span>, a: int, b: int)
    requires Ordered(spans, a, b)
    ensures KeptIn(spans, a, b) >= 0
  {
  }

  lemma WithinIsOrdered(spans: seq<Span>, a: nat, text: string)
    requires Within(spans, a, text)
    ensures Ordered(spans, a, |text|)
  {
  }

  /** Replacement changes the count in a text only if the text contains a short one, without the
      literal, whose output has it. */
  lemma CountWitness(ps: Patterns, w: string, text: string) returns (a: nat, b: nat, e: nat)
    requires NonEmptyReplacements(ps) && TiesSettled(ps) && w != "" && NeverTouched(ps, w)
    requires CountIn(w, text) != CountIn(w, ps.Replace(text).0)
    ensures a <= b <= |text| && b - a <= |w| * LongestLiteral(AllPatterns(ps))
    ensures e + |ps.Replace(text[a..b]).0| <= |ps.Replace(text).0|
    ensures ps.Replace(text[a..b]).0 == ps.Replace(text).0[e..e + |ps.Replace(text[a..b]).0|]
    ensures CountIn(w, text[a..b]) == 0 < CountIn(w, ps.Replace(text[a..b]).0)
  {
    hide *;
    ReplaceIsWeave(ps, text);
    var i := UnkeptOccurrence(ps, w, text);
    var k, l;
    k, l, a, b, e := ExcerptAround(ps, text, i, i + |w|);
    ExcerptShows(ps, text, i, i + |w|, k, l, a, b, e);
    ExcerptSize(ps, w, text, i, k, l, a, b, e);
    ShowsAt(w, ps.Replace(text).0, ps.Replace(text[a..b]).0, i, e);
    SomethingToCount(w, ps.Replace(text[a..b]).0, i - e);
    ExcerptLacks(ps, w, text, i, k, l, a, b, e);
    NothingToCount(w, text[a..b]);
  }

  lemma ShowsAt(w: string, output: string, inner: string, i: int, e: nat)
    requires OccursAt(w, output, i) && e <= i && i + |w| <= e + |inner| && inner[i - e..i + |w| - e] == output[i..i + |w|]
    ensures OccursAt(w, inner, i - e)
  {
  }

  lemma UnkeptOccurrence(ps: Patterns, w: string, text: string) returns (i: int)
    requires NonEmptyReplacements(ps) && w != "" && NeverTouched(ps, w)
    requires CountIn(w, text) != CountIn(w, ps.Replace(text).0)
    ensures i >= 0 && i + |w| <= |ps.Replace(text).0| && OccursAt(w, ps.Replace(text).0, i)
    ensures forall k, a :: !KeptAt(w, text, ps.Find(text), 0, i, k, a)
  {
    hide CountIn, KeptAt, Weave, Within;
    ReplaceIsWeave(ps, text);
    FoundAreBounded(ps, text);
    FoundSpare(ps, w, text);
    hide Patterns.Find, Patterns.Replace, SpansBounded, NeverTouched, NonEmptyReplacements;
    var spans := ps.Find(text);
    assert text[0..] == text;
    if AllKept(w, text, spans, 0) {
      KeptCountsAgree(w, text, spans, 0);
    }
    i :| OccursAt(w, Weave(text, spans, 0), i) && !exists k, a :: KeptAt(w, text, spans, 0, i, k, a);
  }

  lemma FoundSpare(ps: Patterns, w: string, text: string)
    requires NonEmptyReplacements(ps) && NeverTouched(ps, w)
    ensures Spared(w, text, ps.Find(text), 0) && NoneEmpty(ps.Find(text))
  {
    ps.FindIsWithin(text);
    FoundAreBounded(ps, text);
    hide Patterns.Find, Patterns.Matches;
  }

  lemma ExcerptSize(ps: Patterns, w: string, text: string, i: nat, k: nat, l: nat, a: nat, b: nat, e: nat)
    requires Excerpt(ps, text, i, i + |w|, k, l, a, b, e)
    ensures b - a <= |w| * LongestLiteral(AllPatterns(ps))
  {
    hide LongestLiteral, CutAt, Tight, Within, Weave, Patterns.Find, Patterns.Replace;
  }

  /** Around an occurrence that is not kept text, too little text is kept to hold the literal. */
  lemma ExcerptLacks(ps: Patterns, w: string, text: string, i: nat, k: nat, l: nat, a: nat, b: nat, e: nat)
    requires NonEmptyReplacements(ps) && TiesSettled(ps) && w != "" && NeverTouched(ps, w)
    requires Excerpt(ps, text, i, i + |w|, k, l, a, b, e) && forall k, a :: !KeptAt(w, text, ps.Find(text), 0, i, k, a)
    ensures a <= b <= |text| && forall x :: !OccursAt(w, text[a..b], x)
  {
    hide *;
    var spans := ps.Find(text);
    FoundSpare(ps, w, text);
    FewKept(ps, w, text, i, k, l, a, b, e);
    forall x ensures !OccursAt(w, text[a..b], x) {
      NotInside(w, text, spans, k, l, a, b, x);
    }
  }

  lemma FewKept(ps: Patterns, w: string, text: string, i: nat, k: nat, l: nat, a: nat, b: nat, e: nat)
    requires TiesSettled(ps) && w != ""
    requires Excerpt(ps, text, i, i + |w|, k, l, a, b, e) && forall k, a :: !KeptAt(w, text, ps.Find(text), 0, i, k, a)
    ensures a <= b <= |text| && k <= l <= |ps.Find(text)|
    ensures Ordered(ps.Find(text)[k..l], a, b) && KeptIn(ps.Find(text)[k..l], a, b) < |w|
  {
    hide *;
    ExcerptFacts(ps, text, i, i + |w|, k, l, a, b, e);
    ReplaceInside(ps, text, k, l, a, b);
    var inside := ps.Find(text)[k..l];
    WithinIsOrdered(inside, a, text[..b]);
    assert |text[..b]| == b;
    TightMeansFew(inside, a, b, |w|);
    if inside == [] {
      assert k == l;
      WovenNothing(text, a, b, inside);
      assert e == i;
      NothingBetween(w, text, ps.Find(text), i, k, a, b, e);
    }
  }

  lemma TightMeansFew(spans: seq<Span>, a: nat, b: nat, n: nat)
    requires Tight(spans, a, b, n)
    ensures if spans == [] then b - a == n else KeptIn(spans, a, b) < n
  {
    hide KeptIn;
  }

  lemma WovenNothing(text: string, a: nat, b: nat, inside: seq<Span>)
    requires a <= b <= |text| && inside == [] && Within(inside, a, text[..b])
    ensures |Weave(text[..b], inside, a)| == b - a
  {
  }

  lemma ExcerptFacts(ps: Patterns, text: string, i: nat, j: nat, k: nat, l: nat, a: nat, b: nat, e: nat)
    requires Excerpt(ps, text, i, j, k, l, a, b, e)
    ensures a <= b <= |text| && k <= l <= |ps.Find(text)| && CutAt(ps.Find(text), k, a) && CutAt(ps.Find(text), l, b)
    ensures Tight(ps.Find(text)[k..l], a, b, j - i)
    ensures Within(ps.Find(text)[..k], 0, text[..a]) && e == |Weave(text[..a], ps.Find(text)[..k], 0)|
    ensures e <= i < j <= e + |ps.Replace(text[a..b]).0|
  {
    hide LongestLiteral, Tight, Within, Weave, Patterns.Find, Patterns.Replace;
  }

  lemma NotInside(w: string, text: string, spans: seq<Span>, k: nat, l: nat, a: nat, b: nat, x: int)
    requires w != "" && Spared(w, text, spans, 0) && a <= b <= |text| && k <= l <= |spans|
    requires Ordered(spans[k..l], a, b) && KeptIn(spans[k..l], a, b) < |w|
    ensures !OccursAt(w, text[a..b], x)
  {
    hide Ordered, KeptIn;
    if OccursAt(w, text[a..b], x) {
      SliceOfSlice(text, a, b, x, x + |w|);
      OccursIn(w, text, spans, a + x);
      assert Untouched(spans[k..l], a + x, a + x + |w|);
      GapHolds(spans[k..l], a, b, a + x, |w|);
    }
  }

  lemma OccursIn(w: string, text: string, spans: seq<Span>, i: nat)
    requires Spared(w, text, spans, 0) && i + |w| <= |text| && text[i..i + |w|] == w
    ensures Untouched(spans, i, i + |w|)
  {
    assert OccursAt(w, text, i);
  }

  lemma NothingBetween(w: string, text: string, spans: seq<Span>, i: nat, k: nat, a: nat, b: nat, e: nat)
    requires a <= b <= |text| && CutAt(spans, k, a) && CutAt(spans, k, b) && b - a == |w|
    requires Within(spans[..k], 0, text[..a]) && e == |Weave(text[..a], spans[..k], 0)| == i
    ensures KeptAt(w, text, spans, 0, i, k, a)
  {
  }
}
