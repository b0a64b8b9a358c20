/** The compiled matcher: case-sensitive patterns over the text, case-insensitive ones over its
    ASCII-lowered view, one selection, one replacement pass. */
module Matching {
  import opened Text
  import opened Occurrences
  import opened Selection
  import opened Replacement
  import opened AhoCorasick

  /** The two pattern lists a matcher holds. Literals in `ci` are already lowered. */
  datatype Patterns = Patterns(cs: seq<Pattern>, ci: seq<Pattern>) {
    predicate Usable() {
      && (forall p :: p in cs ==> p.literal != "")
      && (forall p :: p in ci ==> p.literal != "")
    }

    /** Some pattern of the policy reports `h` in `text`. */
    ghost predicate Matches(text: string, h: Hit) {
      || (exists p :: p in cs && Produces(p, text, h))
      || (exists p :: p in ci && Produces(p, AsciiLower(text), h))
    }

    /** No pattern of the policy occurs in `text`. */
    ghost predicate Clean(text: string) {
      forall h :: !Matches(text, h)
    }

    function RawHits(text: string): seq<Hit> {
      AllHits(cs, text) + AllHits(ci, AsciiLower(text))
    }

    lemma RawHitsAreMatches(text: string)
      ensures forall h :: h in RawHits(text) <==> Matches(text, h)
      ensures forall h :: h in RawHits(text) ==> h.start < h.end <= |text|
    {
      forall h ensures h in RawHits(text) <==> Matches(text, h) {
        HitIffProduced(cs, text, h);
        HitIffProduced(ci, AsciiLower(text), h);
      }
    }

    function Find(text: string): seq<Span> {
      RawHitsAreMatches(text);
      LeftmostLongest(RawHits(text))
    }

    function Replace(text: string): (string, nat) {
      FindIsWithin(text);
      (Weave(text, Find(text), 0), |Find(text)|)
    }

    lemma FindIsWithin(text: string)
      ensures Within(Find(text), 0, text) && Disjoint(Find(text))
      ensures forall s :: s in Find(text) ==> s.start < s.end <= |text| && Matches(text, s)
    {
      RawHitsAreMatches(text);
      ChoiceIsDisjoint(RawHits(text));
      SpansAreWithin(Find(text), 0, text);
    }

    /** Every match anywhere in the text overlaps a found span that starts no later. */
    lemma FindCovers(text: string, h: Hit)
      requires Matches(text, h)
      ensures exists s :: s in Find(text) && Covers(s, h) && (s.start == h.start ==> s.end >= h.end)
    {
      RawHitsAreMatches(text);
      EveryHitIsCovered(RawHits(text), h);
    }

    /** The text is returned unchanged with count 0 exactly when no pattern occurs in it. */
    lemma FindsNothingIffNoMatch(text: string)
      ensures Find(text) == [] <==> Clean(text)
      ensures Replace(text).1 == 0 <==> Find(text) == []
      ensures Replace(text).1 == 0 ==> Replace(text).0 == text
    {
      FindIsWithin(text);
      if !Clean(text) {
        var h :| Matches(text, h);
        FindCovers(text, h);
      }
      if Find(text) != [] {
        assert Find(text)[0] in Find(text);
      }
    }

    /** A stretch of text that no match touches survives replacement at its shifted offset. */
    lemma UnmatchedTextSurvives(text: string, a: nat, b: nat)
      requires a < b <= |text|
      requires forall h :: Matches(text, h) ==> h.end <= a || b <= h.start
      ensures OccursAt(text[a..b], Replace(text).0, a + Shift(Find(text), a))
    {
      hide AllHits, LeftmostLongest, Weave, Shift;
      FindIsWithin(text);
      UntouchedTextIsKept(text, Find(text), 0, a, b);
    }

    /** Each found span is replaced in place, and nothing is added beyond that. */
    lemma FoundTextIsReplaced(text: string, k: nat)
      requires k < |Find(text)|
      ensures var s := Find(text)[k];
        OccursAt(s.replacement, Replace(text).0, s.start + Shift(Find(text), s.start))
      ensures |Replace(text).0| == |text| + Shift(Find(text), |text|)
    {
      hide AllHits, LeftmostLongest, Weave, Shift, Within;
      FindIsWithin(text);
      SpanIsReplaced(text, Find(text), 0, k);
      WeaveLength(text, Find(text), 0);
    }

    /** A text with one match is replaced there alone. */
    lemma OnlyMatchReplaced(text: string, only: Hit)
      requires forall h :: Matches(text, h) <==> h == only
      ensures Find(text) == [only] && only.start < only.end <= |text|
      ensures Replace(text) == (text[..only.start] + only.replacement + text[only.end..], 1)
    {
      FindCovers(text, only);
      FindIsWithin(text);
      hide Find, Matches;
      var spans := Find(text);
      forall k | 0 <= k < |spans| ensures spans[k] == only {
        assert spans[k] in spans;
      }
      assert spans == [only];
      WovenOnce(text, only);
    }
  }

  lemma WovenOnce(text: string, s: Span)
    requires Within([s], 0, text)
    ensures Weave(text, [s], 0) == text[..s.start] + s.replacement + text[s.end..]
  {
    assert [s][1..] == [];
  }

  /** Two pattern lists that report the same spans with the same replacements, one replacement
      per span, rewrite every text alike: rule identifiers and list order are immaterial. */
  lemma ReplaceIgnoresTies(ps: Patterns, ps': Patterns, text: string)
    requires Candidates(ps.RawHits(text)) == Candidates(ps'.RawHits(text))
    requires OneReplacementPerSpan(Candidates(ps.RawHits(text)))
    ensures ps.Replace(text) == ps'.Replace(text)
  {
    ps.RawHitsAreMatches(text);
    ps'.RawHitsAreMatches(text);
    TiesDoNotMatter(ps.RawHits(text), ps'.RawHits(text));
    ps.FindIsWithin(text);
    ps'.FindIsWithin(text);
    WeaveIgnoresRules(text, ps.Find(text), ps'.Find(text), 0);
  }

  class Matcher {
    const cs: Aho?
    const ci: Aho?
    ghost const patterns: Patterns

    ghost predicate Valid()
      reads this, cs, ci
    {
      && patterns.Usable()
      && (if cs == null then patterns.cs == [] else cs.Built(patterns.cs))
      && (if ci == null then patterns.ci == [] else ci.Built(patterns.ci))
    }

    constructor (sensitiveCs: seq<Pattern>, sensitiveCi: seq<Pattern>)
      requires Patterns(sensitiveCs, sensitiveCi).Usable()
      ensures Valid() && patterns == Patterns(sensitiveCs, sensitiveCi)
    {
      patterns := Patterns(sensitiveCs, sensitiveCi);
      var forCs: Aho?, forCi: Aho? := null, null;
      if sensitiveCs != [] {
        forCs := new Aho(sensitiveCs);
      }
      if sensitiveCi != [] {
        forCi := new Aho(sensitiveCi);
      }
      cs, ci := forCs, forCi;
    }

    method Find(text: string) returns (spans: seq<Span>)
      requires Valid()
      ensures spans == patterns.Find(text)
    {
      hide AllHits, LeftmostLongest;
      patterns.RawHitsAreMatches(text);
      NoPatternsNoHits(text);
      NoPatternsNoHits(AsciiLower(text));
      var raw: seq<Hit> := [];
      if cs != null {
        var hits := cs.Scan(patterns.cs, text);
        raw := raw + hits;
      }
      if ci != null {
        var hits := ci.Scan(patterns.ci, AsciiLower(text));
        raw := raw + hits;
      }
      assert raw == patterns.RawHits(text);
      spans := Select(raw);
    }

    method Replace(text: string) returns (result: string, count: nat)
      requires Valid()
      ensures (result, count) == patterns.Replace(text)
    {
      var spans := Find(text);
      patterns.FindIsWithin(text);
      if spans == [] {
        return text, 0;
      }
      hide Weave;
      result := "";
      var cursor: nat := 0;
      for k := 0 to |spans|
        invariant Within(spans[k..], cursor, text)
        invariant result + Weave(text, spans[k..], cursor) == Weave(text, spans, 0)
      {
        assert spans[k..][1..] == spans[k + 1..];
        WeaveStep(text, spans[k..], cursor, result);
        result := result + text[cursor..spans[k].start];
        result := result + spans[k].replacement;
        cursor := spans[k].end;
      }
      result := result + text[cursor..];
      count := |spans|;
    }
  }

  lemma WeaveStep(text: string, spans: seq<Span>, cursor: nat, result: string)
    requires Within(spans, cursor, text) && spans != []
    ensures result + Weave(text, spans, cursor)
         == result + text[cursor..spans[0].start] + spans[0].replacement + Weave(text, spans[1..], spans[0].end)
  {
  }

  lemma NoPatternsNoHits(text: string)
    ensures AllHits([], text) == []
  {
    if text != "" {
      NoPatternsNoHits(text[..|text| - 1]);
      NoPatternsNoOutputs(text);
    }
  }

  lemma NoPatternsNoOutputs(w: string)
    ensures SuffixOutputs([], w) == []
  {
  }

  /** Triples (literal, replacement, rule id); case-insensitive literals are lowered here. */
  function PatternsOf(rulesCs: seq<(string, string, string)>, rulesCi: seq<(string, string, string)>): Patterns {
    Patterns(seq(|rulesCs|, i requires 0 <= i < |rulesCs| => Pattern(rulesCs[i].0, rulesCs[i].1, rulesCs[i].2)),
             seq(|rulesCi|, i requires 0 <= i < |rulesCi| =>
               Pattern(AsciiLower(rulesCi[i].0), rulesCi[i].1, rulesCi[i].2)))
  }

  /** A triple reports the span: its literal stands there, for a case-insensitive rule up to the
      case of ASCII letters. */
  ghost predicate Reports(t: (string, string, string), caseSensitive: bool, text: string, h: Hit) {
    && h.start < h.end <= |text| && h.replacement == t.1 && h.ruleId == t.2
    && var span := text[h.start..h.end]; if caseSensitive then span == t.0 else SameButForCase(span, t.0)
  }

  ghost predicate Reported(rulesCs: seq<(string, string, string)>, rulesCi: seq<(string, string, string)>, text: string, h: Hit) {
    || (exists t :: t in rulesCs && Reports(t, true, text, h))
    || (exists t :: t in rulesCi && Reports(t, false, text, h))
  }

  /** What the matcher built from the triples matches, spelled out. */
  lemma MatchesWhatTriplesReport(rulesCs: seq<(string, string, string)>, rulesCi: seq<(string, string, string)>,
                                 text: string, h: Hit)
    ensures PatternsOf(rulesCs, rulesCi).Matches(text, h) <==> Reported(rulesCs, rulesCi, text, h)
  {
    var ps := PatternsOf(rulesCs, rulesCi);
    hide SameButForCase, AsciiLower;
    if h.start < h.end <= |text| {
      AsciiLowerSlice(text, h.start, h.end);
      forall i | 0 <= i < |rulesCs|
        ensures Produces(ps.cs[i], text, h) <==> Reports(rulesCs[i], true, text, h)
      {
      }
      forall i | 0 <= i < |rulesCi|
        ensures Produces(ps.ci[i], AsciiLower(text), h) <==> Reports(rulesCi[i], false, text, h)
      {
        LoweredAgree(text[h.start..h.end], rulesCi[i].0);
      }
    }
    if p :| p in ps.cs && Produces(p, text, h) {
      var i :| 0 <= i < |ps.cs| && ps.cs[i] == p;
      assert rulesCs[i] in rulesCs;
    }
    if p :| p in ps.ci && Produces(p, AsciiLower(text), h) {
      var i :| 0 <= i < |ps.ci| && ps.ci[i] == p;
      assert rulesCi[i] in rulesCi;
    }
    if t :| t in rulesCs && Reports(t, true, text, h) {
      var i :| 0 <= i < |rulesCs| && rulesCs[i] == t;
      assert ps.cs[i] in ps.cs;
    }
    if t :| t in rulesCi && Reports(t, false, text, h) {
      var i :| 0 <= i < |rulesCi| && rulesCi[i] == t;
      assert ps.ci[i] in ps.ci;
    }
  }

  /** And what it finds: reported spans only, and one that starts no later over every reported span. */
  lemma FindsWhatTriplesReport(rulesCs: seq<(string, string, string)>, rulesCi: seq<(string, string, string)>, text: string)
    ensures var spans := PatternsOf(rulesCs, rulesCi).Find(text);
      && (forall s :: s in spans ==> Reported(rulesCs, rulesCi, text, s))
      && (forall h :: Reported(rulesCs, rulesCi, text, h) ==> exists s :: s in spans && Covers(s, h))
      && (spans == [] <==> forall h :: !Reported(rulesCs, rulesCi, text, h))
  {
    var ps := PatternsOf(rulesCs, rulesCi);
    ps.FindIsWithin(text);
    ps.FindsNothingIffNoMatch(text);
    forall h ensures ps.Matches(text, h) <==> Reported(rulesCs, rulesCi, text, h) {
      MatchesWhatTriplesReport(rulesCs, rulesCi, text, h);
    }
    hide Patterns.Matches, Patterns.Find, PatternsOf, Reported;
    forall h | Reported(rulesCs, rulesCi, text, h) ensures exists s :: s in ps.Find(text) && Covers(s, h) {
      ps.FindCovers(text, h);
    }
  }
}
