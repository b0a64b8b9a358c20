/** What single-pass replacement does to a text, and why ties cannot change it. */
module Replacement {
  import opened Text
  import opened Occurrences
  import opened Selection

  // ---------- What the recursive choice guarantees ----------

  ghost predicate Disjoint(spans: seq<Span>) {
    forall i, j :: 0 <= i < j < |spans| ==> spans[i].end <= spans[j].start
  }

  predicate Covers(s: Span, h: Hit) {
    s.start <= h.start < s.end
  }

  /** Chosen spans are hits, in increasing order, pairwise disjoint. */
  lemma {:induction false} ChoiceIsDisjoint(raw: seq<Hit>)
    requires NonEmptyHits(raw)
    ensures Disjoint(LeftmostLongest(raw))
    ensures forall s :: s in LeftmostLongest(raw) ==> s in raw
    decreases |raw|
  {
    hide Before, StartingFrom;
    if raw != [] {
      var best := Best(raw);
      StartingFromShrinks(raw, best.end);
      ChoiceIsDisjoint(StartingFrom(raw, best.end));
    }
  }

  /** No hit is left out by accident: each overlaps a chosen span that starts no later, and
      when they start together the chosen one is at least as long. */
  lemma {:induction false} EveryHitIsCovered(raw: seq<Hit>, h: Hit)
    requires NonEmptyHits(raw) && h in raw
    ensures exists s :: s in LeftmostLongest(raw) && Covers(s, h) && (s.start == h.start ==> s.end >= h.end)
    decreases |raw|
  {
    var best := Best(raw);
    assert !Before(h, best);
    assert best in LeftmostLongest(raw);
    if h.start < best.end {
      assert Covers(best, h);
    } else {
      InStartingFrom(raw, best.end);
      StartingFromShrinks(raw, best.end);
      EveryHitIsCovered(StartingFrom(raw, best.end), h);
    }
  }

  /** Of the hits that start together with a chosen span none is longer, and none as long has a
      lesser rule identifier. */
  lemma {:induction false} ChosenIsFirst(raw: seq<Hit>, s: Span, h: Hit)
    requires NonEmptyHits(raw) && s in LeftmostLongest(raw) && h in raw && h.start == s.start
    ensures h.end < s.end || (h.end == s.end && !StringLess(h.ruleId, s.ruleId))
    decreases |raw|
  {
    var best := Best(raw);
    if s == best {
      assert !Before(h, best);
    } else {
      StartingFromShrinks(raw, best.end);
      InStartingFrom(raw, best.end);
      var rest := StartingFrom(raw, best.end);
      assert LeftmostLongest(raw) == [best] + LeftmostLongest(rest);
      ChoiceIsDisjoint(rest);
      assert s in rest;
      ChosenIsFirst(rest, s, h);
    }
  }

  // ---------- Replacing the chosen spans ----------

  predicate Within(spans: seq<Span>, cursor: nat, text: string) {
    && cursor <= |text|
    && (spans != [] ==>
          cursor <= spans[0].start <= spans[0].end <= |text| && Within(spans[1..], spans[0].end, text))
  }

  function Weave(text: string, spans: seq<Span>, cursor: nat): string
    requires Within(spans, cursor, text)
  {
    if spans == [] then text[cursor..]
    else text[cursor..spans[0].start] + spans[0].replacement + Weave(text, spans[1..], spans[0].end)
  }

  /** How far offset `i` of the original text moves: the growth of the spans ending by `i`. */
  function Shift(spans: seq<Span>, i: int): int {
    if spans == [] then 0
    else (if spans[0].end <= i then |spans[0].replacement| - Length(spans[0]) else 0) + Shift(spans[1..], i)
  }

  /** No span touches the window `a..b` of the original text. */
  predicate Untouched(spans: seq<Span>, a: int, b: int) {
    forall s :: s in spans ==> s.end <= a || b <= s.start
  }

  lemma SpansAreWithin(spans: seq<Span>, cursor: nat, text: string)
    requires Disjoint(spans) && cursor <= |text|
    requires forall s :: s in spans ==> cursor <= s.start <= s.end <= |text|
    ensures Within(spans, cursor, text)
  {
    if spans != [] {
      SpansAreWithin(spans[1..], spans[0].end, text);
    }
  }

  lemma WithinBounds(spans: seq<Span>, cursor: nat, text: string)
    requires Within(spans, cursor, text)
    ensures forall s :: s in spans ==> cursor <= s.start <= s.end <= |text|
  {
  }

  /** Nothing moves before the first span ends. */
  lemma NoShiftBefore(spans: seq<Span>, cursor: nat, text: string, i: int)
    requires Within(spans, cursor, text) && (spans == [] || i < spans[0].end)
    ensures Shift(spans, i) == 0
  {
    if spans != [] && spans[1..] != [] {
      NoShiftBefore(spans[1..], spans[0].end, text, i);
    }
  }

  /** A window no span touches is kept, letter for letter, at its shifted offset. */
  lemma {:induction false} UntouchedTextIsKept(text: string, spans: seq<Span>, cursor: nat, a: nat, b: nat)
    requires Within(spans, cursor, text) && cursor <= a < b <= |text|
    requires Untouched(spans, a, b)
    ensures OccursAt(text[a..b], Weave(text, spans, cursor), a - cursor + Shift(spans, a))
    decreases |spans|
  {
    hide *;
    if spans == [] {
      KeptAhead(text, cursor, |text|, "", a, b);
      NoSpans(text, cursor, a);
    } else {
      WeaveHead(text, spans, cursor);
      FirstSpan(text, spans, cursor, a, b);
      if spans[0].end <= a {
        UntouchedTextIsKept(text, spans[1..], spans[0].end, a, b);
        OccursAfter(text[a..b], text[cursor..spans[0].start] + spans[0].replacement, Weave(text, spans[1..], spans[0].end),
                    a - spans[0].end + Shift(spans[1..], a));
        ShiftStep(spans, a);
      } else {
        NoShiftBefore(spans, cursor, text, a);
        var rest := Weave(text, spans[1..], spans[0].end);
        KeptAhead(text, cursor, spans[0].start, spans[0].replacement + rest, a, b);
        assert text[cursor..spans[0].start] + spans[0].replacement + rest
            == text[cursor..spans[0].start] + (spans[0].replacement + rest);
      }
    }
  }

  lemma FirstSpan(text: string, spans: seq<Span>, cursor: nat, a: nat, b: nat)
    requires Within(spans, cursor, text) && spans != [] && Untouched(spans, a, b)
    ensures cursor <= spans[0].start <= spans[0].end <= |text| && Length(spans[0]) == spans[0].end - spans[0].start
    ensures (spans[0].end <= a || b <= spans[0].start) && Untouched(spans[1..], a, b)
  {
    assert spans[0] in spans;
  }

  lemma NoSpans(text: string, cursor: nat, i: int)
    requires cursor <= |text|
    ensures Weave(text, [], cursor) == text[cursor..|text|] + "" && Shift([], i) == 0
  {
  }

  lemma KeptAhead(text: string, cursor: nat, stop: nat, more: string, a: nat, b: nat)
    requires cursor <= a <= b <= stop <= |text|
    ensures OccursAt(text[a..b], text[cursor..stop] + more, a - cursor)
  {
    SliceOfSlice(text, cursor, stop, a - cursor, b - cursor);
    SliceOfPrefix(text[cursor..stop], more, a - cursor, b - cursor);
  }

  /** Each chosen span is replaced by its own replacement, at its shifted offset. */
  lemma {:induction false} SpanIsReplaced(text: string, spans: seq<Span>, cursor: nat, k: nat)
    requires Within(spans, cursor, text) && k < |spans|
    requires forall s :: s in spans ==> s.start < s.end
    ensures OccursAt(spans[k].replacement, Weave(text, spans, cursor),
                     spans[k].start - cursor + Shift(spans, spans[k].start))
    decreases |spans|
  {
    hide Shift, Weave, OccursAt;
    var s, t := spans[0], spans[k];
    WeaveHead(text, spans, cursor);
    var rest := Weave(text, spans[1..], s.end);
    if k == 0 {
      assert s in spans;
      NoShiftBefore(spans, cursor, text, s.start);
      OccursInConcat(s.replacement, text[cursor..s.start], s.replacement, rest);
    } else {
      WithinBounds(spans[1..], s.end, text);
      assert spans[1..][k - 1] == t && t in spans[1..];
      hide Within;
      SpanIsReplaced(text, spans[1..], s.end, k - 1);
      OccursAfter(t.replacement, text[cursor..s.start] + s.replacement, rest, t.start - s.end + Shift(spans[1..], t.start));
      ShiftStep(spans, t.start);
    }
  }

  lemma WeaveHead(text: string, spans: seq<Span>, cursor: nat)
    requires Within(spans, cursor, text) && spans != []
    ensures Within(spans[1..], spans[0].end, text)
    ensures Weave(text, spans, cursor)
         == text[cursor..spans[0].start] + spans[0].replacement + Weave(text, spans[1..], spans[0].end)
  {
  }

  lemma ShiftStep(spans: seq<Span>, i: int)
    requires spans != [] && spans[0].end <= i
    ensures Shift(spans, i) == |spans[0].replacement| - Length(spans[0]) + Shift(spans[1..], i)
  {
  }

  lemma OccursInConcat(w: string, before: string, middle: string, rest: string)
    requires w == middle
    ensures OccursAt(w, before + middle + rest, |before|)
  {
  }

  lemma OccursAfter(w: string, head: string, rest: string, at: int)
    requires OccursAt(w, rest, at)
    ensures OccursAt(w, head + rest, |head| + at)
  {
    assert (head + rest)[|head| + at..|head| + at + |w|] == rest[at..at + |w|];
  }

  /** Nothing else is in the output: its length is the kept text plus the replacements. */
  lemma WeaveLength(text: string, spans: seq<Span>, cursor: nat)
    requires Within(spans, cursor, text)
    ensures |Weave(text, spans, cursor)| == |text| - cursor + Shift(spans, |text|)
  {
  }

  // ---------- Ties ----------

  /** Everything about a hit but the rule that reported it. */
  function Anonymous(h: Hit): Hit {
    h.(ruleId := "")
  }

  /** The candidate spans with their replacements, whoever reported them. */
  ghost function Candidates(raw: seq<Hit>): set<Hit> {
    set h | h in raw :: Anonymous(h)
  }

  ghost predicate OneReplacementPerSpan(candidates: set<Hit>) {
    forall h, k :: h in candidates && k in candidates && h.start == k.start && h.end == k.end ==> h == k
  }

  /** When equal spans carry equal replacements, the choice depends on the set of spans only:
      neither on the order hits come in nor on which rule reported them. */
  lemma {:induction false} TiesDoNotMatter(raw: seq<Hit>, raw': seq<Hit>)
    requires NonEmptyHits(raw) && NonEmptyHits(raw')
    requires Candidates(raw) == Candidates(raw') && OneReplacementPerSpan(Candidates(raw))
    ensures |LeftmostLongest(raw)| == |LeftmostLongest(raw')|
    ensures forall i :: 0 <= i < |LeftmostLongest(raw)| ==>
      Anonymous(LeftmostLongest(raw)[i]) == Anonymous(LeftmostLongest(raw')[i])
    decreases |raw|
  {
    hide Best, Before, StartingFrom, OneReplacementPerSpan;
    NoCandidates(raw);
    NoCandidates(raw');
    if raw != [] {
      var cursor := Best(raw).end;
      SameBest(raw, raw');
      StartingFromShrinks(raw, cursor);
      CandidatesFrom(raw, cursor);
      CandidatesFrom(raw', cursor);
      FewerCandidates(Candidates(raw), cursor);
      TiesDoNotMatter(StartingFrom(raw, cursor), StartingFrom(raw', cursor));
    }
  }

  lemma NoCandidates(raw: seq<Hit>)
    ensures raw == [] <==> Candidates(raw) == {}
  {
    if raw != [] {
      assert Anonymous(raw[0]) in Candidates(raw);
    }
  }

  lemma SameBest(raw: seq<Hit>, raw': seq<Hit>)
    requires Candidates(raw) == Candidates(raw') && OneReplacementPerSpan(Candidates(raw)) && raw != [] && raw' != []
    ensures Anonymous(Best(raw)) == Anonymous(Best(raw'))
    ensures Best(raw).end == Best(raw').end
  {
    hide Best;
    var best, best' := Best(raw), Best(raw');
    assert Anonymous(best) in Candidates(raw') && Anonymous(best') in Candidates(raw);
    var twin :| twin in raw && Anonymous(twin) == Anonymous(best');
    var twin' :| twin' in raw' && Anonymous(twin') == Anonymous(best);
    assert !Before(twin, best) && !Before(twin', best');
    SameFields(twin, best');
    SameFields(twin', best);
  }

  lemma SameFields(h: Hit, k: Hit)
    requires Anonymous(h) == Anonymous(k)
    ensures h.start == k.start && h.end == k.end && h.replacement == k.replacement
  {
    assert h.start == Anonymous(h).start && h.end == Anonymous(h).end && h.replacement == Anonymous(h).replacement;
    assert k.start == Anonymous(k).start && k.end == Anonymous(k).end && k.replacement == Anonymous(k).replacement;
  }

  lemma CandidatesFrom(raw: seq<Hit>, cursor: nat)
    ensures Candidates(StartingFrom(raw, cursor)) == set h | h in Candidates(raw) && h.start >= cursor
  {
    hide StartingFrom;
    InStartingFrom(raw, cursor);
    forall a | a in Candidates(raw) && a.start >= cursor ensures a in Candidates(StartingFrom(raw, cursor)) {
      var h :| h in raw && Anonymous(h) == a;
      assert h.start == a.start;
    }
  }

  lemma FewerCandidates(candidates: set<Hit>, cursor: nat)
    requires OneReplacementPerSpan(candidates)
    ensures OneReplacementPerSpan(set h | h in candidates && h.start >= cursor)
  {
  }

  /** The sort key (span and rule) determines the hit. */
  ghost predicate KeyDetermines(hits: set<Hit>) {
    forall h, k :: h in hits && k in hits && h.start == k.start && h.end == k.end && h.ruleId == k.ruleId ==> h == k
  }

  ghost function HitSet(raw: seq<Hit>): set<Hit> {
    set h | h in raw
  }

  lemma SomeHit(part: seq<Hit>)
    ensures part == [] || HitSet(part) != {}
  {
    assert part != [] ==> part[0] in HitSet(part);
  }

  /** Then the choice depends on the set of hits only, ties between rules included. */
  lemma {:induction false} HitOrderDoesNotMatter(raw: seq<Hit>, raw': seq<Hit>)
    requires NonEmptyHits(raw) && NonEmptyHits(raw')
    requires HitSet(raw) == HitSet(raw') && KeyDetermines(HitSet(raw))
    ensures LeftmostLongest(raw) == LeftmostLongest(raw')
    decreases |raw|
  {
    hide Best, Before, StartingFrom, KeyDetermines;
    assert raw != [] ==> raw[0] in HitSet(raw);
    assert raw' != [] ==> raw'[0] in HitSet(raw');
    if raw != [] {
      SameBestHit(raw, raw');
      var cursor := Best(raw).end;
      StartingFromShrinks(raw, cursor);
      HitSetFrom(raw, cursor);
      HitSetFrom(raw', cursor);
      assert KeyDetermines(HitSet(StartingFrom(raw, cursor))) by {
        FewerHits(HitSet(raw), cursor);
      }
      HitOrderDoesNotMatter(StartingFrom(raw, cursor), StartingFrom(raw', cursor));
    }
  }

  lemma SameBestHit(raw: seq<Hit>, raw': seq<Hit>)
    requires raw != [] && raw' != [] && HitSet(raw) == HitSet(raw') && KeyDetermines(HitSet(raw))
    ensures Best(raw) == Best(raw')
  {
    hide Best;
    var best, best' := Best(raw), Best(raw');
    assert best in HitSet(raw') && best' in HitSet(raw);
    assert !Before(best, best') && !Before(best', best);
    StringLessTotal(best.ruleId, best'.ruleId);
  }

  lemma HitSetFrom(raw: seq<Hit>, cursor: nat)
    ensures HitSet(StartingFrom(raw, cursor)) == set h | h in HitSet(raw) && h.start >= cursor
  {
    hide StartingFrom;
    InStartingFrom(raw, cursor);
  }

  lemma FewerHits(hits: set<Hit>, cursor: nat)
    requires KeyDetermines(hits)
    ensures KeyDetermines(set h | h in hits && h.start >= cursor)
  {
  }

  lemma {:induction false} WeaveIgnoresRules(text: string, spans: seq<Span>, spans': seq<Span>, cursor: nat)
    requires Within(spans, cursor, text) && Within(spans', cursor, text)
    requires |spans| == |spans'|
    requires forall i :: 0 <= i < |spans| ==> Anonymous(spans[i]) == Anonymous(spans'[i])
    ensures Weave(text, spans, cursor) == Weave(text, spans', cursor)
  {
    if spans != [] {
      assert Anonymous(spans[0]) == Anonymous(spans'[0]);
      assert spans[0].start == Anonymous(spans[0]).start && spans[0].end == Anonymous(spans[0]).end
          && spans[0].replacement == Anonymous(spans[0]).replacement;
      WeaveIgnoresRules(text, spans[1..], spans'[1..], spans[0].end);
    }
  }
}
