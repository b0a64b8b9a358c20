/** When replaced text can still show a pattern: never if no pattern overlaps a replacement, and
    exactly when it already happens to some short text. */
module OutputSafety {
  import opened Text
  import opened Occurrences
  import opened Selection
  import opened Replacement
  import opened Matching
  import opened Overlap

  function AllPatterns(ps: Patterns): seq<Pattern> {
    ps.cs + ps.ci
  }

  predicate NonEmptyReplacements(ps: Patterns) {
    forall q :: q in AllPatterns(ps) ==> q.replacement != ""
  }

  /** The output of replacement never shows a pattern. */
  ghost predicate OutputsAreClean(ps: Patterns) {
    forall text :: ps.Clean(ps.Replace(text).0)
  }

  // ---------- Where a window of the output comes from ----------

  /** Where output window `i..j` comes from: it touches the replacement of a span, or it is a
      stretch of the source that no span touches. */
  datatype Origin = Replaced(k: nat, at: nat) | Kept(at: nat)

  ghost predicate ComesFrom(text: string, spans: seq<Span>, cursor: nat, output: string, i: nat, j: nat, o: Origin) {
    && i < j <= |output|
    && match o
       case Replaced(k, at) =>
         k < |spans| && OccursAt(spans[k].replacement, output, at) && at < j && i < at + |spans[k].replacement|
       case Kept(at) =>
         cursor <= at && at + (j - i) <= |text| && Untouched(spans, at, at + (j - i)) && text[at..at + (j - i)] == output[i..j]
  }

  lemma {:induction false} WindowOrigin(text: string, spans: seq<Span>, cursor: nat, i: nat, j: nat) returns (o: Origin)
    requires Within(spans, cursor, text) && i < j <= |Weave(text, spans, cursor)|
    ensures ComesFrom(text, spans, cursor, Weave(text, spans, cursor), i, j, o)
    decreases |spans|
  {
    hide ComesFrom;
    if spans == [] {
      o := Kept(cursor + i);
      FromTail(text, cursor, i, j);
    } else {
      var s := spans[0];
      WeaveHead(text, spans, cursor);
      SpansFollow(spans, cursor, text);
      var head, rest := text[cursor..s.start], Weave(text, spans[1..], s.end);
      var n := |head| + |s.replacement|;
      hide Weave, Within;
      if j <= |head| {
        o := Kept(cursor + i);
        FromHead(text, spans, cursor, rest, i, j);
      } else if i < n {
        o := Replaced(0, |head|);
        FromReplacement(text, spans, cursor, rest, i, j);
      } else {
        var inner := WindowOrigin(text, spans[1..], s.end, i - n, j - n);
        o := FromRest(text, spans, cursor, rest, i, j, inner);
      }
    }
  }

  lemma FromTail(text: string, cursor: nat, i: nat, j: nat)
    requires cursor <= |text| && i < j <= |text| - cursor
    ensures ComesFrom(text, [], cursor, Weave(text, [], cursor), i, j, Kept(cursor + i))
  {
    SliceOfSlice(text, cursor, |text|, i, j);
    assert Weave(text, [], cursor) == text[cursor..|text|];
  }

  lemma FromHead(text: string, spans: seq<Span>, cursor: nat, rest: string, i: nat, j: nat)
    requires spans != [] && cursor <= spans[0].start <= |text| && forall s :: s in spans ==> spans[0].start <= s.start
    requires i < j <= spans[0].start - cursor
    ensures ComesFrom(text, spans, cursor, text[cursor..spans[0].start] + spans[0].replacement + rest, i, j, Kept(cursor + i))
  {
    var head := text[cursor..spans[0].start];
    assert head + spans[0].replacement + rest == head + (spans[0].replacement + rest);
    SliceOfPrefix(head, spans[0].replacement + rest, i, j);
    SliceOfSlice(text, cursor, spans[0].start, i, j);
  }

  lemma FromReplacement(text: string, spans: seq<Span>, cursor: nat, rest: string, i: nat, j: nat)
    requires spans != [] && cursor <= spans[0].start <= |text|
    requires var n := spans[0].start - cursor + |spans[0].replacement|; i < n && spans[0].start - cursor < j <= n + |rest| && i < j
    ensures ComesFrom(text, spans, cursor, text[cursor..spans[0].start] + spans[0].replacement + rest, i, j,
                      Replaced(0, spans[0].start - cursor))
  {
    OccursInConcat(spans[0].replacement, text[cursor..spans[0].start], spans[0].replacement, rest);
  }

  lemma FromRest(text: string, spans: seq<Span>, cursor: nat, rest: string, i: nat, j: nat, inner: Origin) returns (o: Origin)
    requires spans != [] && cursor <= spans[0].start <= spans[0].end <= |text|
    requires var n := spans[0].start - cursor + |spans[0].replacement|;
      n <= i < j && ComesFrom(text, spans[1..], spans[0].end, rest, i - n, j - n, inner)
    ensures ComesFrom(text, spans, cursor, text[cursor..spans[0].start] + spans[0].replacement + rest, i, j, o)
  {
    var head := text[cursor..spans[0].start] + spans[0].replacement;
    assert (head + rest)[i..j] == rest[i - |head|..j - |head|];
    match inner {
      case Replaced(k, at) =>
        o := Replaced(k + 1, |head| + at);
        OccursAfter(spans[1..][k].replacement, head, rest, at);
      case Kept(at) =>
        o := inner;
        forall s | s in spans ensures s.end <= at || at + (j - i) <= s.start {
          assert s == spans[0] || s in spans[1..];
        }
    }
  }

  /** Spans after the first start no earlier than it does. */
  lemma {:induction false} SpansFollow(spans: seq<Span>, cursor: nat, text: string)
    requires Within(spans, cursor, text) && spans != []
    ensures cursor <= spans[0].start <= spans[0].end <= |text|
    ensures forall s :: s in spans ==> spans[0].start <= s.start
  {
    WithinBounds(spans[1..], spans[0].end, text);
    forall s | s in spans ensures spans[0].start <= s.start {
      assert s == spans[0] || s in spans[1..];
    }
  }

  // ---------- A check on the policy that suffices ----------

  /** No pattern can share a character with a replacement in any text, in its own case view. */
  predicate Apart(ps: Patterns) {
    && (forall p, q :: p in ps.cs && q in AllPatterns(ps) ==> !Overlaps(p.literal, q.replacement))
    && (forall p, q :: p in ps.ci && q in AllPatterns(ps) ==> !Overlaps(p.literal, AsciiLower(q.replacement)))
  }

  /** Kept text shows no match, so a match in the output touches a replacement. */
  lemma ApartMeansClean(ps: Patterns, text: string)
    requires NonEmptyReplacements(ps) && Apart(ps)
    ensures ps.Clean(ps.Replace(text).0)
  {
    hide Patterns.Replace, Patterns.Matches, Apart, NonEmptyReplacements;
    forall h ensures !ps.Matches(ps.Replace(text).0, h) {
      NoOutputMatch(ps, text, h);
    }
  }

  lemma NoOutputMatch(ps: Patterns, text: string, h: Hit)
    requires Apart(ps)
    ensures !ps.Matches(ps.Replace(text).0, h)
  {
    hide *;
    ReplaceIsWeave(ps, text);
    if ps.Matches(ps.Replace(text).0, h) {
      MatchIsShort(ps, ps.Replace(text).0, h);
      var o := WindowOrigin(text, ps.Find(text), 0, h.start, h.end);
      OriginTouches(ps, text, ps.Replace(text).0, h, o);
    }
  }

  lemma OriginTouches(ps: Patterns, text: string, output: string, h: Hit, o: Origin)
    requires ps.Matches(output, h) && ComesFrom(text, ps.Find(text), 0, output, h.start, h.end, o)
    ensures !Apart(ps)
  {
    var spans := ps.Find(text);
    hide Patterns.Find, Patterns.Matches, Apart, Untouched;
    match o {
      case Replaced(k, at) =>
        ps.FindIsWithin(text);
        assert spans[k] in spans;
        MatchMeetsReplacement(ps, text, output, h, spans[k], at);
      case Kept(at) => KeptMatch(ps, text, spans, output, h, at);
    }
  }

  lemma MatchMeetsReplacement(ps: Patterns, text: string, output: string, h: Hit, s: Span, at: nat)
    requires ps.Matches(output, h) && ps.Matches(text, s)
    requires OccursAt(s.replacement, output, at) && at < h.end && h.start < at + |s.replacement|
    ensures !Apart(ps)
  {
    var q := PatternOf(ps, text, s);
    hide Overlaps;
    if p :| p in ps.cs && Produces(p, output, h) {
      MeetingOverlaps(p.literal, s.replacement, output, h.start, at);
    } else {
      var p :| p in ps.ci && Produces(p, AsciiLower(output), h);
      AsciiLowerSlice(output, at, at + |s.replacement|);
      MeetingOverlaps(p.literal, AsciiLower(s.replacement), AsciiLower(output), h.start, at);
    }
  }

  lemma PatternOf(ps: Patterns, text: string, s: Span) returns (q: Pattern)
    requires ps.Matches(text, s)
    ensures q in AllPatterns(ps) && q.replacement == s.replacement && |q.literal| == s.end - s.start > 0
  {
    if p :| p in ps.cs && Produces(p, text, s) {
      q := p;
    } else {
      q :| q in ps.ci && Produces(q, AsciiLower(text), s);
    }
  }

  /** A match inside kept text would be a match of the source that no chosen span covers. */
  lemma KeptMatch(ps: Patterns, text: string, spans: seq<Span>, output: string, h: Hit, at: nat)
    requires spans == ps.Find(text) && ps.Matches(output, h) && at + (h.end - h.start) <= |text|
    requires text[at..at + (h.end - h.start)] == output[h.start..h.end]
    ensures !Untouched(spans, at, at + (h.end - h.start))
  {
    var n := h.end - h.start;
    var source := h.(start := at, end := at + n);
    AsciiLowerSlice(text, at, at + n);
    AsciiLowerSlice(output, h.start, h.end);
    if p :| p in ps.cs && Produces(p, output, h) {
      assert Produces(p, text, source);
    } else {
      var p :| p in ps.ci && Produces(p, AsciiLower(output), h);
      assert Produces(p, AsciiLower(text), source);
    }
    ps.FindCovers(text, source);
  }

  // ---------- Cutting a text where no span is cut ----------

  /** Offset `a` lies between the first `k` spans and the others. */
  ghost predicate CutAt(spans: seq<Span>, k: nat, a: nat) {
    && k <= |spans|
    && (forall x :: 0 <= x < k ==> spans[x].end <= a)
    && (forall x :: k <= x < |spans| ==> a <= spans[x].start)
  }

  /** Replacement works on the two sides of a cut independently. */
  lemma {:induction false} WeaveSplits(text: string, spans: seq<Span>, cursor: nat, k: nat, a: nat)
    requires Within(spans, cursor, text) && cursor <= a <= |text| && CutAt(spans, k, a)
    ensures Within(spans[..k], cursor, text[..a]) && Within(spans[k..], a, text)
    ensures Weave(text, spans, cursor) == Weave(text[..a], spans[..k], cursor) + Weave(text, spans[k..], a)
    decreases |spans|
  {
    if spans == [] {
      assert text[cursor..] == text[..a][cursor..] + text[a..];
    } else if k == 0 {
      var s := spans[0];
      assert spans[..0] == [] && spans[0..] == spans;
      assert text[cursor..s.start] == text[..a][cursor..] + text[a..s.start];
      WeaveHead(text, spans, cursor);
      WeaveHead(text, spans, a);
      JoinKept(text[..a][cursor..], text[a..s.start], s.replacement, Weave(text, spans[1..], s.end));
    } else {
      var s := spans[0];
      WeaveHead(text, spans, cursor);
      CutTail(spans, k, a);
      WeaveSplits(text, spans[1..], s.end, k - 1, a);
      assert spans[..k][1..] == spans[1..][..k - 1] && spans[1..][k - 1..] == spans[k..];
      assert spans[..k][0] == s && text[..a][cursor..s.start] == text[cursor..s.start];
      WeaveHead(text[..a], spans[..k], cursor);
      hide Weave, Within;
      JoinRest(text[cursor..s.start] + s.replacement, Weave(text[..a], spans[1..][..k - 1], s.end), Weave(text, spans[k..], a));
    }
  }

  lemma JoinKept(a: string, b: string, c: string, d: string)
    ensures (a + b) + c + d == a + (b + c + d)
  {
  }

  lemma JoinRest(a: string, b: string, c: string)
    ensures a + (b + c) == (a + b) + c
  {
  }

  lemma CutBound(spans: seq<Span>, k: nat, a: nat)
    requires CutAt(spans, k, a)
    ensures k <= |spans|
  {
  }

  lemma CutTail(spans: seq<Span>, k: nat, a: nat)
    requires CutAt(spans, k, a) && k > 0
    ensures spans[0].end <= a && CutAt(spans[1..], k - 1, a)
  {
  }

  /** Spans of at least one and at most `m` characters, none replaced by nothing. */
  ghost predicate SpansBounded(spans: seq<Span>, m: nat) {
    m > 0 && forall s :: s in spans ==> s.start < s.end <= s.start + m && s.replacement != ""
  }

  /** `shown` output characters use at most `m` source characters each. */
  ghost predicate UsesFew(used: int, shown: int, m: nat) {
    used <= shown * m
  }

  /** The characters between `a` and `b` that lie in no span. */
  function KeptIn(spans: seq<Span>, a: int, b: int): int {
    if spans == [] then b - a else spans[0].start - a + KeptIn(spans[1..], spans[0].end, b)
  }

  /** `shown` output characters come from no more kept ones and one for each span, and from as many
      kept ones when there is no span. */
  ghost predicate Tight(spans: seq<Span>, a: int, b: int, shown: int) {
    KeptIn(spans, a, b) + |spans| <= shown && (spans == [] ==> b - a == shown)
  }

  lemma TightFurther(spans: seq<Span>, cursor: nat, l: nat, b: nat, j: nat, j': nat)
    requires spans != [] && l < |spans| && spans[0].start - cursor + 1 + j' <= j && Tight(spans[1..][..l], spans[0].end, b, j')
    ensures Tight(spans[..l + 1], cursor, b, j)
  {
    assert spans[..l + 1][1..] == spans[1..][..l] && spans[..l + 1][0] == spans[0];
  }

  /** A cut after at least `j` output characters that uses few source characters. */
  ghost predicate CutsAfter(text: string, spans: seq<Span>, cursor: nat, j: nat, m: nat, l: nat, b: nat) {
    && cursor <= b <= |text| && CutAt(spans, l, b) && UsesFew(b - cursor, j, m)
    && Tight(spans[..l], cursor, b, j)
    && Within(spans[..l], cursor, text[..b]) && |Weave(text[..b], spans[..l], cursor)| >= j
  }

  lemma {:induction false} CutAfter(text: string, spans: seq<Span>, cursor: nat, j: nat, m: nat) returns (l: nat, b: nat)
    requires Within(spans, cursor, text) && SpansBounded(spans, m) && j <= |Weave(text, spans, cursor)|
    ensures CutsAfter(text, spans, cursor, j, m, l, b)
    decreases |spans|
  {
    var n := if spans == [] then j else spans[0].start - cursor;
    if j <= n {
      l, b := 0, cursor + j;
      CutInHead(text, spans, cursor, j, m);
    } else {
      var s := spans[0];
      BoundedTail(spans, m);
      WeaveHead(text, spans, cursor);
      var j' := if j <= n + |s.replacement| then 0 else j - n - |s.replacement|;
      hide CutsAfter;
      l, b := CutAfter(text, spans[1..], s.end, j', m);
      CutPastSpan(text, spans, cursor, j, j', m, l, b);
      l := l + 1;
    }
  }

  lemma CutInHead(text: string, spans: seq<Span>, cursor: nat, j: nat, m: nat)
    requires Within(spans, cursor, text) && m > 0
    requires cursor + j <= if spans == [] then |text| else spans[0].start
    ensures CutsAfter(text, spans, cursor, j, m, 0, cursor + j)
  {
    if spans != [] {
      SpansFollow(spans, cursor, text);
    }
    assert spans[..0] == [] && Weave(text[..cursor + j], [], cursor) == text[..cursor + j][cursor..];
    assert UsesFew(j, j, m) by {
      assert j * m >= j;
    }
  }

  lemma BoundedTail(spans: seq<Span>, m: nat)
    requires SpansBounded(spans, m) && spans != []
    ensures SpansBounded(spans[1..], m) && spans[0].start < spans[0].end <= spans[0].start + m && spans[0].replacement != ""
  {
    assert spans[0] in spans;
  }

  lemma CutPastSpan(text: string, spans: seq<Span>, cursor: nat, j: nat, j': nat, m: nat, l: nat, b: nat)
    requires Within(spans, cursor, text) && spans != [] && SpansBounded(spans, m)
    requires var n := spans[0].start - cursor; n + 1 + j' <= j <= n + |spans[0].replacement| + j'
    requires CutsAfter(text, spans[1..], spans[0].end, j', m, l, b)
    ensures CutsAfter(text, spans, cursor, j, m, l + 1, b)
  {
    hide UsesFew, Tight, Weave, Within, CutAt, SpansBounded;
    BoundedTail(spans, m);
    SpansFollow(spans, cursor, text);
    var s := spans[0];
    FewCharacters(s.start - cursor, s.end - s.start, b - s.end, j, j', m);
    CutHead(spans, cursor, l + 1, b, text);
    CutBound(spans, l + 1, b);
    TightFurther(spans, cursor, l, b, j, j');
    PrefixFurther(text, spans, cursor, l, b);
  }

  lemma FewCharacters(n: nat, length: nat, used: nat, j: nat, j': nat, m: nat)
    requires m > 0 && length <= m && n + 1 + j' <= j && UsesFew(used, j', m)
    ensures UsesFew(n + length + used, j, m)
  {
    assert j * m >= (n + 1 + j') * m == n * m + m + j' * m;
    assert n * m >= n;
  }

  lemma CutHead(spans: seq<Span>, cursor: nat, l: nat, b: nat, text: string)
    requires Within(spans, cursor, text) && spans != [] && l > 0 && spans[0].end <= b && CutAt(spans[1..], l - 1, b)
    requires b <= |text|
    ensures CutAt(spans, l, b) && Within(spans[..l], cursor, text[..b])
  {
    assert spans[..l][1..] == spans[1..][..l - 1];
    assert forall x :: 0 < x < |spans| ==> spans[x] == spans[1..][x - 1];
    WeaveSplits(text, spans, cursor, l, b);
  }

  /** Two cuts around an output window, with few source characters between them: at least `j`
      output characters before the second, at most `i` before the first. */
  ghost predicate CutsAround(text: string, spans: seq<Span>, cursor: nat, i: nat, j: nat, m: nat,
          k: nat, l: nat, a: nat, b: nat) {
    && cursor <= a <= b <= |text| && UsesFew(b - a, j - i, m) && k <= l && CutAt(spans, k, a) && CutAt(spans, l, b)
    && Tight(spans[k..l], a, b, j - i)
    && Within(spans[..k], cursor, text[..a]) && Within(spans[k..l], a, text[..b])
    && |Weave(text[..a], spans[..k], cursor)| <= i
    && j <= |Weave(text[..a], spans[..k], cursor)| + |Weave(text[..b], spans[k..l], a)|
  }

  lemma {:induction false} CutWindow(text: string, spans: seq<Span>, cursor: nat, i: nat, j: nat, m: nat)
    returns (k: nat, l: nat, a: nat, b: nat)
    requires Within(spans, cursor, text) && SpansBounded(spans, m) && i < j <= |Weave(text, spans, cursor)|
    ensures CutsAround(text, spans, cursor, i, j, m, k, l, a, b)
    decreases |spans|
  {
    hide *;
    var n := if spans == [] then j else spans[0].start - cursor;
    if spans == [] {
      CutEnd(text, cursor);
    } else {
      SpansFollow(spans, cursor, text);
    }
    if i < n {
      k, a := 0, cursor + i;
      CutBefore(text, spans, cursor, i);
      l, b := CutAfter(text, spans, a, j - i, m);
      FromCut(text, spans, cursor, i, j, a, l, b, m);
    } else {
      var s := spans[0];
      BoundedTail(spans, m);
      WeaveHead(text, spans, cursor);
      var r := |s.replacement|;
      if i < n + r {
        k, a := 0, s.start;
        var j' := if j <= n + r then 0 else j - n - r;
        l, b := CutAfter(text, spans[1..], s.end, j', m);
        FromSpan(text, spans, cursor, i, j, j', m, l, b);
        l := l + 1;
      } else {
        k, l, a, b := CutWindow(text, spans[1..], s.end, i - n - r, j - n - r, m);
        CutsFurther(text, spans, cursor, i, j, m, k, l, a, b);
        k, l := k + 1, l + 1;
      }
    }
  }

  lemma CutEnd(text: string, cursor: nat)
    requires Within([], cursor, text)
    ensures cursor <= |text| && |Weave(text, [], cursor)| == |text| - cursor
  {
  }

  /** What precedes a cut after the first span: that span and what precedes it in the rest. */
  lemma PrefixFurther(text: string, spans: seq<Span>, cursor: nat, k: nat, a: nat)
    requires spans != [] && cursor <= spans[0].start <= spans[0].end <= a <= |text| && k < |spans|
    requires Within(spans[..k + 1], cursor, text[..a])
    ensures Within(spans[1..][..k], spans[0].end, text[..a])
    ensures |Weave(text[..a], spans[..k + 1], cursor)|
         == spans[0].start - cursor + |spans[0].replacement| + |Weave(text[..a], spans[1..][..k], spans[0].end)|
  {
    hide Weave, Within;
    assert spans[..k + 1][1..] == spans[1..][..k];
    WeaveHead(text[..a], spans[..k + 1], cursor);
  }

  /** A cut in the kept text before the first span. */
  lemma CutBefore(text: string, spans: seq<Span>, cursor: nat, i: nat)
    requires Within(spans, cursor, text) && cursor + i <= if spans == [] then |text| else spans[0].start
    ensures CutAt(spans, 0, cursor + i) && Within(spans, cursor + i, text)
    ensures Within([], cursor, text[..cursor + i]) && |Weave(text[..cursor + i], [], cursor)| == i
    ensures |Weave(text, spans, cursor)| == i + |Weave(text, spans, cursor + i)|
  {
    if spans != [] {
      SpansFollow(spans, cursor, text);
    }
    WeaveSplits(text, spans, cursor, 0, cursor + i);
    assert spans[..0] == [] && spans[0..] == spans;
  }

  lemma FromCut(text: string, spans: seq<Span>, cursor: nat, i: nat, j: nat, a: nat, l: nat, b: nat, m: nat)
    requires i <= j && a == cursor + i && CutAt(spans, 0, a) && a <= |text|
    requires CutsAfter(text, spans, a, j - i, m, l, b)
    ensures CutsAround(text, spans, cursor, i, j, m, 0, l, a, b)
  {
    assert spans[..0] == [] && spans[0..l] == spans[..l];
    assert Weave(text[..a], [], cursor) == text[..a][cursor..];
  }

  lemma FromSpan(text: string, spans: seq<Span>, cursor: nat, i: nat, j: nat, j': nat, m: nat, l: nat, b: nat)
    requires Within(spans, cursor, text) && spans != [] && SpansBounded(spans, m)
    requires var n := spans[0].start - cursor; n <= i && i + 1 + j' <= j <= n + |spans[0].replacement| + j'
    requires CutsAfter(text, spans[1..], spans[0].end, j', m, l, b)
    ensures CutsAround(text, spans, cursor, i, j, m, 0, l + 1, spans[0].start, b)
  {
    hide UsesFew, Tight, Weave, Within, SpansBounded;
    var n := spans[0].start - cursor;
    SpansFollow(spans, cursor, text);
    CutBefore(text, spans, cursor, n);
    CutPastSpan(text, spans, spans[0].start, j - n, j', m, l, b);
    BoundedTail(spans, m);
    FewCharacters(0, spans[0].end - spans[0].start, b - spans[0].end, j - i, j', m);
    CutBound(spans, l + 1, b);
    TightFurther(spans, spans[0].start, l, b, j - i, j');
    hide CutAt;
    assert spans[..0] == [] && spans[0..l + 1] == spans[..l + 1];
  }

  lemma CutsFurther(text: string, spans: seq<Span>, cursor: nat, i: nat, j: nat, m: nat, k: nat, l: nat, a: nat, b: nat)
    requires Within(spans, cursor, text) && spans != []
    requires var n := spans[0].start - cursor + |spans[0].replacement|;
      n <= i && n <= j && CutsAround(text, spans[1..], spans[0].end, i - n, j - n, m, k, l, a, b)
    ensures CutsAround(text, spans, cursor, i, j, m, k + 1, l + 1, a, b)
  {
    hide UsesFew, Tight, Weave, Within, CutAt;
    SpansFollow(spans, cursor, text);
    CutHead(spans, cursor, k + 1, a, text);
    CutHead(spans, cursor, l + 1, b, text);
    CutBound(spans, l + 1, b);
    MiddleOfTail(spans, k, l);
    PrefixFurther(text, spans, cursor, k, a);
  }

  lemma MiddleOfTail(spans: seq<Span>, k: nat, l: nat)
    requires k <= l < |spans|
    ensures spans[k + 1..l + 1] == spans[1..][k..l]
  {
    var tail := spans[1..];
    assert forall x :: k <= x < l ==> tail[x] == spans[x + 1];
    assert forall x :: 0 <= x < l - k ==> spans[k + 1..l + 1][x] == spans[k + 1 + x] && tail[k..l][x] == tail[k + x];
  }

  // ---------- The choice within a cut-out text ----------

  function Moved(h: Hit, a: nat): Hit {
    h.(start := h.start + a, end := h.end + a)
  }

  function AllMoved(hits: seq<Hit>, a: nat): (r: seq<Hit>)
    ensures |r| == |hits| && forall x :: 0 <= x < |hits| ==> r[x] == Moved(hits[x], a)
  {
    seq(|hits|, x requires 0 <= x < |hits| => Moved(hits[x], a))
  }

  lemma {:induction false} BestMoved(hits: seq<Hit>, a: nat)
    requires hits != []
    ensures Best(AllMoved(hits, a)) == Moved(Best(hits), a)
    decreases |hits|
  {
    hide Before;
    var n := |hits| - 1;
    assert AllMoved(hits, a)[..n] == AllMoved(hits[..n], a);
    if n > 0 {
      BestStep(hits);
      BestStep(AllMoved(hits, a));
      hide Best;
      BestMoved(hits[..n], a);
      BeforeMoved(hits[n], Best(hits[..n]), a);
    }
  }

  lemma BestStep(hits: seq<Hit>)
    requires |hits| > 1
    ensures var n := |hits| - 1; Best(hits) == if Before(hits[n], Best(hits[..n])) then hits[n] else Best(hits[..n])
  {
    hide Before;
  }

  lemma BeforeMoved(h: Hit, k: Hit, a: nat)
    ensures Before(Moved(h, a), Moved(k, a)) <==> Before(h, k)
  {
    hide StringLess;
  }

  lemma {:induction false} StartingFromMoved(hits: seq<Hit>, a: nat, cursor: nat)
    ensures StartingFrom(AllMoved(hits, a), cursor + a) == AllMoved(StartingFrom(hits, cursor), a)
    decreases |hits|
  {
    if hits != [] {
      var n := |hits| - 1;
      assert AllMoved(hits, a)[..n] == AllMoved(hits[..n], a);
      StartingFromMoved(hits[..n], a, cursor);
    }
  }

  lemma {:induction false} ChoiceMoved(hits: seq<Hit>, a: nat)
    requires NonEmptyHits(hits)
    ensures NonEmptyHits(AllMoved(hits, a)) && LeftmostLongest(AllMoved(hits, a)) == AllMoved(LeftmostLongest(hits), a)
    decreases |hits|
  {
    hide *;
    NoChoice(hits);
    MovedStayNonEmpty(hits, a);
    if hits == [] {
      NoneMoved(hits, a);
    } else {
      var first := Best(hits);
      var rest := StartingFrom(hits, first.end);
      BestMoved(hits, a);
      StartingFromMoved(hits, a, first.end);
      StartingFromShrinks(hits, first.end);
      ChoiceMoved(rest, a);
      ChooseFirst(hits, first);
      ChooseFirst(AllMoved(hits, a), Moved(first, a));
      FirstMoved(first, LeftmostLongest(rest), a);
    }
  }

  lemma MovedStayNonEmpty(hits: seq<Hit>, a: nat)
    requires NonEmptyHits(hits)
    ensures NonEmptyHits(AllMoved(hits, a))
  {
    forall h | h in AllMoved(hits, a) ensures h.start < h.end {
      InMoved(hits, a, h);
    }
  }

  lemma NoneMoved(hits: seq<Hit>, a: nat)
    requires hits == []
    ensures NonEmptyHits(hits) && LeftmostLongest(AllMoved(hits, a)) == AllMoved(LeftmostLongest(hits), a)
  {
  }

  lemma FirstMoved(first: Hit, rest: seq<Hit>, a: nat)
    ensures AllMoved([first] + rest, a) == [Moved(first, a)] + AllMoved(rest, a)
    ensures Moved(first, a).end == first.end + a
  {
  }

  lemma {:induction false} WeaveMoved(text: string, t: string, spans: seq<Span>, cursor: nat, a: nat)
    requires a <= |text| && t == text[a..] && Within(spans, cursor, t)
    ensures Within(AllMoved(spans, a), cursor + a, text)
    ensures Weave(text, AllMoved(spans, a), cursor + a) == Weave(t, spans, cursor)
    decreases |spans|
  {
    hide Weave, Within;
    if spans == [] {
      NoneWoven(text, t, cursor, a);
    } else {
      var s, moved := spans[0], AllMoved(spans, a);
      SpansFollow(spans, cursor, t);
      WeaveHead(t, spans, cursor);
      assert moved[1..] == AllMoved(spans[1..], a);
      WeaveMoved(text, t, spans[1..], s.end, a);
      WithinHead(moved, cursor + a, text);
      WeaveHead(text, moved, cursor + a);
      assert text[cursor + a..s.start + a] == t[cursor..s.start];
    }
  }

  lemma NoneWoven(text: string, t: string, cursor: nat, a: nat)
    requires a <= |text| && t == text[a..] && Within([], cursor, t)
    ensures Within([], cursor + a, text) && Weave(text, [], cursor + a) == Weave(t, [], cursor)
    ensures AllMoved([], a) == []
  {
    assert t[cursor..] == text[cursor + a..];
  }

  lemma WithinHead(spans: seq<Span>, cursor: nat, text: string)
    requires spans != [] && cursor <= spans[0].start <= spans[0].end <= |text| && Within(spans[1..], spans[0].end, text)
    ensures Within(spans, cursor, text)
  {
  }

  ghost function Inside(hits: set<Hit>, a: nat, b: nat): set<Hit> {
    set h | h in hits && a <= h.start && h.end <= b
  }

  /** The hits of a cut-out text are the hits of the text that lie inside it. */
  lemma HitsInside(ps: Patterns, text: string, a: nat, b: nat)
    requires a <= b <= |text|
    ensures HitSet(AllMoved(ps.RawHits(text[a..b]), a)) == Inside(HitSet(ps.RawHits(text)), a, b)
  {
    hide Patterns.RawHits, AllMoved;
    forall h ensures h in AllMoved(ps.RawHits(text[a..b]), a) <==> h in ps.RawHits(text) && a <= h.start && h.end <= b {
      HitInside(ps, text, a, b, h);
    }
  }

  lemma HitInside(ps: Patterns, text: string, a: nat, b: nat, h: Hit)
    requires a <= b <= |text|
    ensures h in AllMoved(ps.RawHits(text[a..b]), a) <==> h in ps.RawHits(text) && a <= h.start && h.end <= b
  {
    hide *;
    InMoved(ps.RawHits(text[a..b]), a, h);
    HitIsMatch(ps, text, h);
    if a <= h.start < h.end <= b {
      var back := h.(start := h.start - a, end := h.end - a);
      HitIsMatch(ps, text[a..b], back);
      MatchInside(ps, text, a, b, back);
      MovedBack(h, a);
    } else if a <= h.start && a <= h.end {
      HitIsMatch(ps, text[a..b], h.(start := h.start - a, end := h.end - a));
    }
  }

  lemma MovedBack(h: Hit, a: nat)
    requires a <= h.start && a <= h.end
    ensures Moved(h.(start := h.start - a, end := h.end - a), a) == h
  {
  }

  lemma HitIsMatch(ps: Patterns, text: string, h: Hit)
    ensures h in ps.RawHits(text) <==> ps.Matches(text, h)
    ensures h in ps.RawHits(text) ==> h.start < h.end <= |text|
  {
    ps.RawHitsAreMatches(text);
  }

  lemma InMoved(hits: seq<Hit>, a: nat, h: Hit)
    ensures h in AllMoved(hits, a) <==> a <= h.start && a <= h.end && h.(start := h.start - a, end := h.end - a) in hits
  {
    if a <= h.start && a <= h.end && h.(start := h.start - a, end := h.end - a) in hits {
      var x :| 0 <= x < |hits| && hits[x] == h.(start := h.start - a, end := h.end - a);
      assert AllMoved(hits, a)[x] == h;
    }
    if h in AllMoved(hits, a) {
      var x :| 0 <= x < |hits| && AllMoved(hits, a)[x] == h;
      assert hits[x] == h.(start := h.start - a, end := h.end - a);
    }
  }

  lemma MatchInside(ps: Patterns, text: string, a: nat, b: nat, h: Hit)
    requires a <= b <= |text| && h.start < h.end <= b - a
    ensures ps.Matches(text[a..b], h) <==> ps.Matches(text, Moved(h, a))
  {
    SliceOfSlice(text, a, b, h.start, h.end);
    AsciiLowerSlice(text, a, b);
    SliceOfSlice(AsciiLower(text), a, b, h.start, h.end);
    forall p ensures Produces(p, text[a..b], h) <==> Produces(p, text, Moved(h, a)) {
    }
    forall p ensures Produces(p, AsciiLower(text[a..b]), h) <==> Produces(p, AsciiLower(text), Moved(h, a)) {
    }
  }

  /** Choosing among the hits between two cuts gives the spans chosen between them. */
  lemma {:induction false} ChoiceInside(raw: seq<Hit>, part: seq<Hit>, k: nat, l: nat, a: nat, b: nat)
    requires NonEmptyHits(raw) && NonEmptyHits(part) && KeyDetermines(HitSet(raw)) && k <= l && a <= b
    requires HitSet(part) == Inside(HitSet(raw), a, b)
    requires CutAt(LeftmostLongest(raw), k, a) && CutAt(LeftmostLongest(raw), l, b)
    ensures LeftmostLongest(part) == LeftmostLongest(raw)[k..l]
    decreases |raw|
  {
    hide *;
    NoChoice(raw);
    NoChoice(part);
    if raw == [] {
      EmptyHits(raw, part, a, b);
      EmptyCut(k, a);
      EmptyCut(l, b);
    } else {
      var best := Best(raw);
      var rest := StartingFrom(raw, best.end);
      StartingFromShrinks(raw, best.end);
      ChooseFirst(raw, best);
      KeyRest(raw, best.end);
      assert ([best] + LeftmostLongest(rest))[1..] == LeftmostLongest(rest);
      if k > 0 {
        CutTail(LeftmostLongest(raw), k, a);
        CutTail(LeftmostLongest(raw), l, b);
        InsideRest(raw, best.end, a, b);
        ChoiceInside(rest, part, k - 1, l - 1, a, b);
        assert ([best] + LeftmostLongest(rest))[k..l] == LeftmostLongest(rest)[k - 1..l - 1];
      } else if l == 0 {
        CutFirst(LeftmostLongest(raw), b);
        NothingInside(raw, part, a, b);
      } else {
        CutTail(LeftmostLongest(raw), l, b);
        CutFirst(LeftmostLongest(raw), a);
        SameBestInside(raw, part, a, b);
        InsideBoth(raw, part, best.end, a, b);
        ChooseFirst(part, best);
        ChoiceInside(rest, StartingFrom(part, best.end), 0, l - 1, a, b);
        assert ([best] + LeftmostLongest(rest))[0..l] == [best] + LeftmostLongest(rest)[0..l - 1];
      }
    }
  }

  lemma NoChoice(raw: seq<Hit>)
    requires NonEmptyHits(raw)
    ensures raw == [] ==> LeftmostLongest(raw) == []
    ensures forall cursor :: NonEmptyHits(StartingFrom(raw, cursor))
    ensures raw != [] ==> Best(raw).start < Best(raw).end
  {
    hide StartingFrom;
  }

  lemma EmptyCut(k: nat, a: nat)
    requires CutAt([], k, a)
    ensures k == 0
  {
  }

  lemma InsideRest(raw: seq<Hit>, cursor: nat, a: nat, b: nat)
    requires cursor <= a
    ensures Inside(HitSet(StartingFrom(raw, cursor)), a, b) == Inside(HitSet(raw), a, b)
  {
    HitSetFrom(raw, cursor);
  }

  lemma InsideBoth(raw: seq<Hit>, part: seq<Hit>, cursor: nat, a: nat, b: nat)
    requires HitSet(part) == Inside(HitSet(raw), a, b)
    ensures HitSet(StartingFrom(part, cursor)) == Inside(HitSet(StartingFrom(raw, cursor)), a, b)
  {
    HitSetFrom(raw, cursor);
    HitSetFrom(part, cursor);
  }

  lemma EmptyHits(raw: seq<Hit>, part: seq<Hit>, a: nat, b: nat)
    requires raw == [] && HitSet(part) == Inside(HitSet(raw), a, b)
    ensures part == []
  {
    SomeHit(part);
  }

  lemma KeyRest(raw: seq<Hit>, cursor: nat)
    requires KeyDetermines(HitSet(raw))
    ensures KeyDetermines(HitSet(StartingFrom(raw, cursor)))
  {
    HitSetFrom(raw, cursor);
    FewerHits(HitSet(raw), cursor);
  }

  lemma CutFirst(spans: seq<Span>, a: nat)
    requires CutAt(spans, 0, a) && spans != []
    ensures a <= spans[0].start && CutAt(spans[1..], 0, a)
  {
  }

  lemma NothingInside(raw: seq<Hit>, part: seq<Hit>, a: nat, b: nat)
    requires raw != [] && NonEmptyHits(raw) && b <= Best(raw).start
    requires HitSet(part) == Inside(HitSet(raw), a, b)
    ensures part == []
  {
    hide Best;
    assert part != [] ==> part[0] in HitSet(part) && part[0] in raw && !Before(part[0], Best(raw));
  }

  lemma SameBestInside(raw: seq<Hit>, part: seq<Hit>, a: nat, b: nat)
    requires raw != [] && KeyDetermines(HitSet(raw)) && a <= Best(raw).start && Best(raw).end <= b
    requires HitSet(part) == Inside(HitSet(raw), a, b)
    ensures part != [] && Best(part) == Best(raw)
  {
    hide Best;
    var best := Best(raw);
    assert best in HitSet(raw) && best in HitSet(part);
    var best' := Best(part);
    assert best' in HitSet(part) && best' in raw;
    assert !Before(best, best') && !Before(best', best);
    StringLessTotal(best.ruleId, best'.ruleId);
  }

  // ---------- Short texts decide ----------

  /** In every text the sort key settles every tie, as unique rule identifiers ensure. */
  ghost predicate TiesSettled(ps: Patterns) {
    forall text :: KeyDetermines(HitSet(ps.RawHits(text)))
  }

  function LongestLiteral(patterns: seq<Pattern>): (m: nat)
    ensures m > 0 && forall p :: p in patterns ==> |p.literal| <= m
  {
    if patterns == [] then 1
    else
      assert forall p :: p in patterns ==> p == patterns[0] || p in patterns[1..];
      var m := LongestLiteral(patterns[1..]);
      if m < |patterns[0].literal| then |patterns[0].literal| else m
  }

  /** The square of the longest literal. */
  function Reach(ps: Patterns): nat {
    LongestLiteral(AllPatterns(ps)) * LongestLiteral(AllPatterns(ps))
  }

  /** A check on finitely many texts, made from the policy alone. */
  ghost predicate ShortOutputsAreClean(ps: Patterns) {
    forall text :: |text| <= Reach(ps) ==> ps.Clean(ps.Replace(text).0)
  }

  /** Replacing a text cut out between two cuts gives the output between them. */
  lemma ReplaceInside(ps: Patterns, text: string, k: nat, l: nat, a: nat, b: nat)
    requires TiesSettled(ps) && a <= b <= |text| && k <= l
    requires CutAt(ps.Find(text), k, a) && CutAt(ps.Find(text), l, b)
    ensures Within(ps.Find(text)[k..l], a, text[..b])
    ensures ps.Replace(text[a..b]).0 == Weave(text[..b], ps.Find(text)[k..l], a)
  {
    var t := text[a..b];
    ps.RawHitsAreMatches(text);
    ps.RawHitsAreMatches(t);
    ps.FindIsWithin(t);
    HitsInside(ps, text, a, b);
    assert KeyDetermines(HitSet(ps.RawHits(text)));
    hide Patterns.RawHits, LeftmostLongest, HitSet, KeyDetermines, CutAt, TiesSettled, Weave, Within;
    ChoiceMoved(ps.RawHits(t), a);
    ChoiceInside(ps.RawHits(text), AllMoved(ps.RawHits(t), a), k, l, a, b);
    assert t == text[..b][a..];
    WeaveMoved(text[..b], t, ps.Find(t), 0, a);
  }

  /** `t` is a piece of `text` between two cuts, so its output is the piece `e..` of the output;
      it shows output window `i..j` and is short. */
  ghost predicate Excerpt(ps: Patterns, text: string, i: nat, j: nat, k: nat, l: nat, a: nat, b: nat, e: nat) {
    && a <= b <= |text| && k <= l && CutAt(ps.Find(text), k, a) && CutAt(ps.Find(text), l, b)
    && b - a <= (j - i) * LongestLiteral(AllPatterns(ps)) && Tight(ps.Find(text)[k..l], a, b, j - i)
    && Within(ps.Find(text)[..k], 0, text[..a]) && e == |Weave(text[..a], ps.Find(text)[..k], 0)|
    && var output, inner := ps.Replace(text).0, ps.Replace(text[a..b]).0;
       e <= i < j <= e + |inner| <= |output| && inner == output[e..e + |inner|]
  }

  lemma ExcerptAround(ps: Patterns, text: string, i: nat, j: nat) returns (k: nat, l: nat, a: nat, b: nat, e: nat)
    requires NonEmptyReplacements(ps) && TiesSettled(ps) && i < j <= |ps.Replace(text).0|
    ensures Excerpt(ps, text, i, j, k, l, a, b, e)
  {
    hide *;
    var spans := ps.Find(text);
    var m := LongestLiteral(AllPatterns(ps));
    ReplaceIsWeave(ps, text);
    FoundAreBounded(ps, text);
    k, l, a, b := CutWindow(text, spans, 0, i, j, m);
    e := WindowInside(text, spans, i, j, m, k, l, a, b);
    ReplaceInside(ps, text, k, l, a, b);
    IsExcerpt(ps, text, i, j, k, l, a, b, e);
  }

  lemma IsExcerpt(ps: Patterns, text: string, i: nat, j: nat, k: nat, l: nat, a: nat, b: nat, e: nat)
    requires a <= b <= |text| && k <= l && CutAt(ps.Find(text), k, a) && CutAt(ps.Find(text), l, b)
    requires b - a <= (j - i) * LongestLiteral(AllPatterns(ps)) && Tight(ps.Find(text)[k..l], a, b, j - i)
    requires Within(ps.Find(text)[..k], 0, text[..a]) && e == |Weave(text[..a], ps.Find(text)[..k], 0)|
    requires var output, inner := ps.Replace(text).0, ps.Replace(text[a..b]).0;
      e <= i < j <= e + |inner| <= |output| && inner == output[e..e + |inner|]
    ensures Excerpt(ps, text, i, j, k, l, a, b, e)
  {
    hide Patterns.Find, Patterns.Replace, LongestLiteral, CutAt, Tight, Within, Weave;
  }

  /** A text whose output shows a pattern contains a short one whose output shows it. */
  lemma ShortWitness(ps: Patterns, text: string, h: Hit) returns (a: nat, b: nat, e: nat)
    requires NonEmptyReplacements(ps) && TiesSettled(ps) && ps.Matches(ps.Replace(text).0, h)
    ensures a <= b <= |text| && b - a <= Reach(ps) && !ps.Clean(ps.Replace(text[a..b]).0)
    ensures e + |ps.Replace(text[a..b]).0| <= |ps.Replace(text).0|
    ensures ps.Replace(text[a..b]).0 == ps.Replace(text).0[e..e + |ps.Replace(text[a..b]).0|]
  {
    hide *;
    MatchIsShort(ps, ps.Replace(text).0, h);
    var k, l;
    k, l, a, b, e := ExcerptAround(ps, text, h.start, h.end);
    ExcerptIsShort(ps, text, h.start, h.end, k, l, a, b, e);
    ExcerptShows(ps, text, h.start, h.end, k, l, a, b, e);
    MatchInWindow(ps, ps.Replace(text).0, ps.Replace(text[a..b]).0, h, e);
  }

  lemma ExcerptIsShort(ps: Patterns, text: string, i: nat, j: nat, k: nat, l: nat, a: nat, b: nat, e: nat)
    requires Excerpt(ps, text, i, j, k, l, a, b, e) && j - i <= LongestLiteral(AllPatterns(ps))
    ensures b - a <= Reach(ps)
  {
    hide LongestLiteral, CutAt, Tight, Within, Weave, Patterns.Find, Patterns.Replace;
    WithinSquare(b - a, j - i, LongestLiteral(AllPatterns(ps)));
  }

  lemma ExcerptShows(ps: Patterns, text: string, i: nat, j: nat, k: nat, l: nat, a: nat, b: nat, e: nat)
    requires Excerpt(ps, text, i, j, k, l, a, b, e)
    ensures a <= b <= |text|
    ensures var output, inner := ps.Replace(text).0, ps.Replace(text[a..b]).0;
      && e <= i < j <= e + |inner| <= |output| && inner == output[e..e + |inner|]
      && inner[i - e..j - e] == output[i..j]
  {
    hide LongestLiteral, CutAt, Tight, Within, Weave, Patterns.Find, Patterns.Replace;
    var output, inner := ps.Replace(text).0, ps.Replace(text[a..b]).0;
    SliceOfSlice(output, e, e + |inner|, i - e, j - e);
  }

  lemma ReplaceIsWeave(ps: Patterns, text: string)
    ensures Within(ps.Find(text), 0, text) && ps.Replace(text).0 == Weave(text, ps.Find(text), 0)
  {
    ps.FindIsWithin(text);
  }

  lemma MatchIsShort(ps: Patterns, text: string, h: Hit)
    requires ps.Matches(text, h)
    ensures h.start < h.end <= |text| && h.end - h.start <= LongestLiteral(AllPatterns(ps))
  {
    var p := PatternOf(ps, text, h);
  }

  lemma WithinSquare(n: nat, j: nat, m: nat)
    requires n <= j * m && j <= m
    ensures n <= m * m
  {
    assert j * m <= m * m;
  }

  lemma FoundAreBounded(ps: Patterns, text: string)
    requires NonEmptyReplacements(ps)
    ensures SpansBounded(ps.Find(text), LongestLiteral(AllPatterns(ps)))
  {
    ps.FindIsWithin(text);
    hide Patterns.Find, LongestLiteral;
    forall s | s in ps.Find(text)
      ensures s.start < s.end <= s.start + LongestLiteral(AllPatterns(ps)) && s.replacement != ""
    {
      var q := PatternOf(ps, text, s);
    }
  }

  /** The window lies in the output between the cuts. */
  lemma WindowInside(text: string, spans: seq<Span>, i: nat, j: nat, m: nat, k: nat, l: nat, a: nat, b: nat) returns (e: nat)
    requires Within(spans, 0, text) && i < j && CutsAround(text, spans, 0, i, j, m, k, l, a, b)
    ensures a <= b <= |text| && b - a <= (j - i) * m && k <= l && CutAt(spans, k, a) && CutAt(spans, l, b)
    ensures Within(spans[k..l], a, text[..b]) && Tight(spans[k..l], a, b, j - i)
    ensures Within(spans[..k], 0, text[..a]) && e == |Weave(text[..a], spans[..k], 0)|
    ensures var inner := Weave(text[..b], spans[k..l], a);
      e <= i && j <= e + |inner| <= |Weave(text, spans, 0)| && inner == Weave(text, spans, 0)[e..e + |inner|]
  {
    var x, y := Weave(text[..a], spans[..k], 0), Weave(text[..b], spans[k..l], a);
    var z := WeaveInThree(text, spans, k, l, a, b);
    e := |x|;
    hide Weave, Within, CutAt, Tight;
    MiddleSlice(x, y, z);
  }

  lemma WeaveInThree(text: string, spans: seq<Span>, k: nat, l: nat, a: nat, b: nat) returns (z: string)
    requires Within(spans, 0, text) && a <= b <= |text| && k <= l && CutAt(spans, k, a) && CutAt(spans, l, b)
    ensures Within(spans[..k], 0, text[..a]) && Within(spans[k..l], a, text[..b])
    ensures Weave(text, spans, 0) == Weave(text[..a], spans[..k], 0) + (Weave(text[..b], spans[k..l], a) + z)
  {
    hide *;
    CutRest(spans, k, l, b);
    var tail := spans[k..];
    WeaveSplits(text, spans, 0, k, a);
    assert tail[..l - k] == spans[k..l];
    WeaveSplits(text, tail, a, l - k, b);
    z := Weave(text, tail[l - k..], b);
  }

  lemma CutRest(spans: seq<Span>, k: nat, l: nat, b: nat)
    requires k <= l && CutAt(spans, l, b)
    ensures k <= l <= |spans| && CutAt(spans[k..], l - k, b)
  {
  }

  lemma MiddleSlice(x: string, y: string, z: string)
    ensures |x| + |y| <= |x + (y + z)| && y == (x + (y + z))[|x|..|x| + |y|]
  {
  }

  lemma MatchInWindow(ps: Patterns, output: string, inner: string, h: Hit, e: nat)
    requires ps.Matches(output, h) && e <= h.start && h.end - e <= |inner|
    requires h.end <= |output| && inner[h.start - e..h.end - e] == output[h.start..h.end]
    ensures !ps.Clean(inner)
  {
    var back := h.(start := h.start - e, end := h.end - e);
    AsciiLowerSlice(output, h.start, h.end);
    AsciiLowerSlice(inner, back.start, back.end);
    if p :| p in ps.cs && Produces(p, output, h) {
      assert Produces(p, inner, back);
    } else {
      var p :| p in ps.ci && Produces(p, AsciiLower(output), h);
      assert Produces(p, AsciiLower(inner), back);
    }
    assert ps.Matches(inner, back);
  }

  /** Exactly when no output ever shows a pattern: when no text of at most `Reach` characters
      has an output that does. */
  lemma OutputsCleanIffShortOnesAre(ps: Patterns)
    requires NonEmptyReplacements(ps) && TiesSettled(ps)
    ensures OutputsAreClean(ps) <==> ShortOutputsAreClean(ps)
  {
    hide TiesSettled, Reach, Patterns.Replace;
    if ShortOutputsAreClean(ps) {
      forall text ensures ps.Clean(ps.Replace(text).0) {
        if h :| ps.Matches(ps.Replace(text).0, h) {
          var a, b, e := ShortWitness(ps, text, h);
        }
      }
    }
  }

  /** The simpler check on pairs of literals is enough. */
  lemma ApartPoliciesHaveCleanOutputs(ps: Patterns)
    requires NonEmptyReplacements(ps) && Apart(ps)
    ensures OutputsAreClean(ps)
  {
    hide Apart, Patterns.Replace;
    forall text ensures ps.Clean(ps.Replace(text).0) {
      ApartMeansClean(ps, text);
    }
  }
}
