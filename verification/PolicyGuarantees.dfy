/** What an accepted policy guarantees about every later text, and exactly when. */
module PolicyGuarantees {
  import opened Text
  import opened Results
  import opened Occurrences
  import opened Selection
  import opened Replacement
  import opened Matching
  import opened Overlap
  import opened Pseudonyms
  import opened Policy

  ghost predicate InsensitiveAreAscii(rules: seq<Rule>) {
    forall r :: r in rules && !r.caseSensitive ==> IsAscii(r.value)
  }

  // ---------- Ties: can two identities claim the same span? ----------

  /** Case-sensitive values of two identities that differ by normal form only. */
  ghost predicate NormalFormTwins(u: Unicode, r: Rule, s: Rule) {
    r.Id() != s.Id() && r.caseSensitive && s.caseSensitive && u.nfc(r.value) == u.nfc(s.value)
  }

  ghost predicate TwinFree(u: Unicode, rules: seq<Rule>) {
    forall r, s :: r in rules && s in rules ==> !NormalFormTwins(u, r, s)
  }

  /** No text whatever is matched by rules of two identities. */
  ghost predicate SpansHaveOneIdentity(u: Unicode, rules: seq<Rule>) {
    forall r, s, w :: r in rules && s in rules && MatchedBy(u, r, w) && MatchedBy(u, s, w) ==> r.Id() == s.Id()
  }

  /** Whatever a rule matches falls under one of its match-domain keys; a case-sensitive rule
      that matches other than by its digit alias has the normal form of the text. */
  lemma MatchedTextIsClaimed(u: Unicode, r: Rule, w: string) returns (isAlias: bool)
    requires u.Lawful() && (r.caseSensitive || IsAscii(r.value)) && MatchedBy(u, r, w)
    ensures Claims(u, r, AsciiLower(u.nfc(w)), isAlias)
    ensures r.caseSensitive && !isAlias ==> u.nfc(r.value) == u.nfc(w)
  {
    var form :| form in u.Forms(r) && View(r.caseSensitive, form) == View(r.caseSensitive, w);
    u.DigitsAreDigits(r.value);
    assert u.LawfulOn(r.value) && u.LawfulOn(form) && u.LawfulOn(w);
    isAlias := form in u.Aliases(r.value);
  }

  /** Exactly when ties are harmless: an accepted policy lets no text belong to two identities
      if and only if no two identities have case-sensitive values equal up to normal form. */
  lemma TiesAgreeIffTwinFree(u: Unicode, rules: seq<Rule>)
    requires u.Lawful() && InsensitiveAreAscii(rules) && ConflictFree(u, rules)
    ensures SpansHaveOneIdentity(u, rules) <==> TwinFree(u, rules)
  {
    if TwinFree(u, rules) {
      forall r, s, w | r in rules && s in rules && MatchedBy(u, r, w) && MatchedBy(u, s, w) ensures r.Id() == s.Id() {
        var a := MatchedTextIsClaimed(u, r, w);
        var b := MatchedTextIsClaimed(u, s, w);
        assert !RulesConflict(u, r, s);
        assert !Conflict(Claim(r, a), Claim(s, b));
        assert !NormalFormTwins(u, r, s);
      }
    }
    if SpansHaveOneIdentity(u, rules) {
      forall r, s | r in rules && s in rules ensures !NormalFormTwins(u, r, s) {
        if u.nfc(r.value) == u.nfc(s.value) && r.caseSensitive && s.caseSensitive {
          var w := u.nfc(r.value);
          assert w in u.Forms(r) && w in u.Forms(s);
          assert MatchedBy(u, r, w) && MatchedBy(u, s, w);
        }
      }
    }
  }

  /** Two spellings of one name, composed and decomposed, for two subjects. */
  function TwinRules(id1: string, id2: string): seq<Rule> {
    [Rule(id1, Some("a"), "name", "Jos\U{00E9}", true), Rule(id2, Some("b"), "name", "Jose\U{0301}", true)]
  }

  /** What normalization and digit classification say of these spellings. */
  ghost predicate KnowsTwins(u: Unicode) {
    && u.nfc("Jose\U{0301}") == "Jos\U{00E9}"
    && u.nfd("Jos\U{00E9}") == "Jose\U{0301}" && u.nfd("Jose\U{0301}") == "Jose\U{0301}"
    && !u.isDigit('J') && !u.isDigit('o') && !u.isDigit('s') && !u.isDigit('e')
    && !u.isDigit('\U{0301}') && !u.isDigit('\U{00E9}')
  }

  /** The compiler lets such twins through, whenever it can allocate their two pseudonyms. */
  lemma TwinsAreAccepted(u: Unicode, digest: Digest, id1: string, id2: string)
    requires u.Lawful() && KnowsTwins(u) && id1 != id2 && id1 != "" && id2 != ""
    requires Plan(digest, IdentitiesOf(TwinRules(id1, id2))).Ok?
    ensures Refusal(u, digest, TwinRules(id1, id2), []) == None
    ensures NormalFormTwins(u, TwinRules(id1, id2)[0], TwinRules(id1, id2)[1])
  {
    var rules := TwinRules(id1, id2);
    var composed, decomposed := rules[0], rules[1];
    TwinForms(u, id1, id2);
    assert rules[..1] == [composed] && rules[..0] == [] && [composed][..0] == [];
    assert FirstRuleError([composed]) == None && FirstRuleError(rules) == None;
    hide Plan, FirstRuleError;
    assert composed.value[3] != decomposed.value[3];
    NoSelfConflict(u, composed);
    NoSelfConflict(u, decomposed);
    assert !RulesConflict(u, composed, decomposed);
    ConflictSymmetric(u, composed, decomposed);
  }

  lemma TwinForms(u: Unicode, id1: string, id2: string)
    requires u.Lawful() && KnowsTwins(u)
    ensures forall r :: r in TwinRules(id1, id2) ==>
      u.Forms(r) == {"Jos\U{00E9}", "Jose\U{0301}"} && u.nfc(r.value) == "Jos\U{00E9}" && AliasKeys(u, r) == []
  {
    var composed, decomposed := TwinRules(id1, id2)[0], TwinRules(id1, id2)[1];
    assert u.LawfulOn(decomposed.value);
    NoDigits(u, composed.value);
    NoDigits(u, decomposed.value);
  }

  /** And then the tie-break decides: renaming the two rules gives the name another pseudonym. */
  lemma TwinsMakeTieBreaksMatter(u: Unicode, digest: Digest, ps: Patterns, qs: Patterns)
    requires u.Lawful() && KnowsTwins(u) && Plan(digest, IdentitiesOf(TwinRules("r1", "r2"))).Ok?
    requires var reps := Plan(digest, IdentitiesOf(TwinRules("r1", "r2"))).value;
      Registered(u, TwinRules("r1", "r2"), reps, ps) && Registered(u, TwinRules("r2", "r1"), reps, qs)
    ensures IdentitiesOf(TwinRules("r1", "r2")) == IdentitiesOf(TwinRules("r2", "r1"))
    ensures ps.Replace("Jos\U{00E9}").0 != qs.Replace("Jos\U{00E9}").0
  {
    hide *;
    var reps := Plan(digest, IdentitiesOf(TwinRules("r1", "r2"))).value;
    var x, y := Identity("name", "a"), Identity("name", "b");
    TwinIdentities("r1", "r2");
    TwinIdentities("r2", "r1");
    PlanIsInjective(digest, [x, y]);
    TwinPseudonyms(reps, x, y);
    TwinMatches(u, "r1", "r2", reps, ps);
    TwinMatches(u, "r2", "r1", reps, qs);
    RuleOrder();
    ReplaceTied(ps, "Jos\U{00E9}", Hit(0, 4, reps[x], "r1"), Hit(0, 4, reps[y], "r2"));
    ReplaceTied(qs, "Jos\U{00E9}", Hit(0, 4, reps[y], "r1"), Hit(0, 4, reps[x], "r2"));
  }

  lemma RuleOrder()
    ensures StringLess("r1", "r2")
  {
  }

  lemma TwinIdentities(id1: string, id2: string)
    ensures IdentitiesOf(TwinRules(id1, id2)) == [Identity("name", "a"), Identity("name", "b")]
  {
  }

  lemma TwinPseudonyms(reps: map<Identity, string>, x: Identity, y: Identity)
    requires reps.Keys == AsSet([x, y]) && DistinctPerType(reps) && x != y && x.dataType == y.dataType
    ensures x in reps && y in reps && reps[x] != reps[y]
  {
    assert x in AsSet([x, y]) && y in AsSet([x, y]);
  }

  lemma TwinMatches(u: Unicode, id1: string, id2: string, reps: map<Identity, string>, ps: Patterns)
    requires u.Lawful() && KnowsTwins(u) && Registered(u, TwinRules(id1, id2), reps, ps)
    requires Identity("name", "a") in reps && Identity("name", "b") in reps
    ensures forall h :: ps.Matches("Jos\U{00E9}", h) <==>
      h == Hit(0, 4, reps[Identity("name", "a")], id1) || h == Hit(0, 4, reps[Identity("name", "b")], id2)
  {
    hide Registered, Patterns.Matches, MatchedBy;
    forall h ensures ps.Matches("Jos\U{00E9}", h) <==>
        h == Hit(0, 4, reps[Identity("name", "a")], id1) || h == Hit(0, 4, reps[Identity("name", "b")], id2)
    {
      HitIsRuleMatch(u, TwinRules(id1, id2), reps, ps, "Jos\U{00E9}", h);
      if h.start < h.end <= 4 {
        forall r | r in TwinRules(id1, id2)
          ensures MatchedBy(u, r, "Jos\U{00E9}"[h.start..h.end]) <==> h.start == 0 && h.end == 4
        {
          TwinMatchedBy(u, id1, id2, r, h.start, h.end);
        }
      }
      assert TwinRules(id1, id2)[0] in TwinRules(id1, id2) && TwinRules(id1, id2)[1] in TwinRules(id1, id2);
    }
  }

  lemma TwinMatchedBy(u: Unicode, id1: string, id2: string, r: Rule, i: nat, j: nat)
    requires u.Lawful() && KnowsTwins(u) && r in TwinRules(id1, id2) && i < j <= 4
    ensures MatchedBy(u, r, "Jos\U{00E9}"[i..j]) <==> i == 0 && j == 4
  {
    var text := "Jos\U{00E9}";
    TwinForms(u, id1, id2);
    assert |text[i..j]| == j - i && text[0..4] == text;
    assert text in u.Forms(r);
  }

  /** Of two matches of a whole text the one with the lesser rule identifier replaces it. */
  lemma ReplaceTied(ps: Patterns, text: string, first: Hit, second: Hit)
    requires first.start == second.start == 0 && first.end == second.end == |text| > 0
    requires StringLess(first.ruleId, second.ruleId)
    requires forall h :: ps.Matches(text, h) <==> h == first || h == second
    ensures ps.Replace(text).0 == first.replacement
  {
    ps.RawHitsAreMatches(text);
    hide Patterns.RawHits, Patterns.Matches;
    TiedChoice(ps.RawHits(text), first, second);
    WholeText(text, [first]);
  }

  lemma TiedChoice(raw: seq<Hit>, first: Hit, second: Hit)
    requires NonEmptyHits(raw) && first.start == second.start < first.end == second.end
    requires StringLess(first.ruleId, second.ruleId) && forall h :: h in raw <==> h == first || h == second
    ensures LeftmostLongest(raw) == [first]
  {
    hide Best, StartingFrom, LeftmostLongest;
    assert first in raw && Before(first, second);
    assert Best(raw) == first;
    ChooseFirst(raw, first);
    var rest := StartingFrom(raw, first.end);
    assert forall h :: h in rest ==> h in raw && h.start >= first.end;
    SomeHit(rest);
    assert HitSet(rest) == {};
    NoneLeft(first.end);
  }

  lemma WholeText(text: string, spans: seq<Span>)
    requires |spans| == 1 && spans[0].start == 0 && spans[0].end == |text|
    ensures Within(spans, 0, text) && Weave(text, spans, 0) == spans[0].replacement
  {
    assert spans[1..] == [] && Weave(text, [], |text|) == "";
  }

  lemma NoDigits(u: Unicode, s: string)
    requires forall i :: 0 <= i < |s| ==> !u.isDigit(s[i])
    ensures u.Digits(s) == ""
  {
  }

  /** In a twin-free policy equal spans always carry equal replacements. */
  lemma OneReplacementPerMatch(u: Unicode, rules: seq<Rule>, reps: map<Identity, string>, ps: Patterns, text: string)
    requires u.Lawful() && InsensitiveAreAscii(rules) && ConflictFree(u, rules) && TwinFree(u, rules)
    requires Registered(u, rules, reps, ps) && forall r :: r in rules ==> r.Id() in reps
    ensures OneReplacementPerSpan(Candidates(ps.RawHits(text)))
  {
    TiesAgreeIffTwinFree(u, rules);
    ps.RawHitsAreMatches(text);
    hide *;
    forall h, k | h in ps.RawHits(text) && k in ps.RawHits(text) && h.start == k.start && h.end == k.end
      ensures h.replacement == k.replacement
    {
      MatchHasRule(u, rules, reps, ps, text, h);
      MatchHasRule(u, rules, reps, ps, text, k);
      var w := text[h.start..h.end];
      var r :| r in rules && MatchedBy(u, r, w) && r.Id() in reps && h.replacement == reps[r.Id()] && h.ruleId == r.ruleId;
      var s :| s in rules && MatchedBy(u, s, w) && s.Id() in reps && k.replacement == reps[s.Id()] && k.ruleId == s.ruleId;
      assert r.Id() == s.Id();
    }
  }

  /** Every pattern of `ps` is in `qs`, possibly under another rule identifier. */
  ghost predicate PatternsWithin(ps: seq<Pattern>, qs: seq<Pattern>) {
    forall p :: p in ps ==> exists q :: q in qs && q.literal == p.literal && q.replacement == p.replacement
  }

  ghost predicate WithinUpToRule(ps: Patterns, qs: Patterns) {
    PatternsWithin(ps.cs, qs.cs) && PatternsWithin(ps.ci, qs.ci)
  }

  lemma SameHitsUpToRule(ps: Patterns, qs: Patterns, text: string)
    requires WithinUpToRule(ps, qs)
    ensures Candidates(ps.RawHits(text)) <= Candidates(qs.RawHits(text))
  {
    ps.RawHitsAreMatches(text);
    qs.RawHitsAreMatches(text);
    forall a | a in Candidates(ps.RawHits(text)) ensures a in Candidates(qs.RawHits(text)) {
      var h :| h in ps.RawHits(text) && a == Anonymous(h);
      var k := MatchTransfers(ps, qs, text, h);
      assert k in qs.RawHits(text) && Anonymous(k) == a;
    }
  }

  lemma MatchTransfers(ps: Patterns, qs: Patterns, text: string, h: Hit) returns (k: Hit)
    requires WithinUpToRule(ps, qs)
    requires ps.Matches(text, h)
    ensures qs.Matches(text, k) && Anonymous(k) == Anonymous(h)
  {
    if p :| p in ps.cs && Produces(p, text, h) {
      var q :| q in qs.cs && q.literal == p.literal && q.replacement == p.replacement;
      k := h.(ruleId := q.ruleId);
      assert Produces(q, text, k);
    } else {
      var p :| p in ps.ci && Produces(p, AsciiLower(text), h);
      var q :| q in qs.ci && q.literal == p.literal && q.replacement == p.replacement;
      k := h.(ruleId := q.ruleId);
      assert Produces(q, AsciiLower(text), k);
    }
  }

  /** Tie-breaks never change the output of a twin-free policy: any other order of the patterns
      and any other choice of rule identifiers rewrites every text the same way. */
  lemma TieBreaksAreImmaterial(u: Unicode, rules: seq<Rule>, reps: map<Identity, string>, ps: Patterns, qs: Patterns,
          text: string)
    requires u.Lawful() && InsensitiveAreAscii(rules) && ConflictFree(u, rules) && TwinFree(u, rules)
    requires Registered(u, rules, reps, ps) && forall r :: r in rules ==> r.Id() in reps
    requires WithinUpToRule(ps, qs) && WithinUpToRule(qs, ps)
    ensures ps.Replace(text) == qs.Replace(text)
  {
    OneReplacementPerMatch(u, rules, reps, ps, text);
    SameHitsUpToRule(ps, qs, text);
    SameHitsUpToRule(qs, ps, text);
    ReplaceIgnoresTies(ps, qs, text);
  }

  /** Even with twins, the order in which forms are registered is immaterial: rule identifiers
      are unique, so the sort key settles every tie the same way. */
  lemma RegistrationOrderIsImmaterial(u: Unicode, digest: Digest, rules: seq<Rule>, protected: seq<string>,
                                      ps: Patterns, qs: Patterns, text: string)
    requires Refusal(u, digest, rules, protected) == None
    requires Registered(u, rules, Plan(digest, IdentitiesOf(rules)).value, ps)
    requires Registered(u, rules, Plan(digest, IdentitiesOf(rules)).value, qs)
    ensures ps.Find(text) == qs.Find(text) && ps.Replace(text) == qs.Replace(text)
  {
    hide Plan, Refusal, Registered, ConflictFree, OverlapFree, InsensitiveAreAscii;
    AcceptedRules(u, digest, rules, protected);
    var reps := Plan(digest, IdentitiesOf(rules)).value;
    ps.RawHitsAreMatches(text);
    qs.RawHitsAreMatches(text);
    SameRegistrationSameHits(u, rules, reps, ps, qs, text);
    KeySettlesHits(u, rules, reps, ps, text);
    HitOrderDoesNotMatter(ps.RawHits(text), qs.RawHits(text));
  }

  lemma SameRegistrationSameHits(u: Unicode, rules: seq<Rule>, reps: map<Identity, string>, ps: Patterns,
          qs: Patterns, text: string)
    requires Registered(u, rules, reps, ps) && Registered(u, rules, reps, qs)
    requires forall r :: r in rules ==> r.Id() in reps
    ensures HitSet(ps.RawHits(text)) == HitSet(qs.RawHits(text))
  {
    hide Registered, MatchedBy, AllHits;
    ps.RawHitsAreMatches(text);
    qs.RawHitsAreMatches(text);
    forall h ensures h in HitSet(ps.RawHits(text)) <==> h in HitSet(qs.RawHits(text)) {
      HitIsRuleMatch(u, rules, reps, ps, text, h);
      HitIsRuleMatch(u, rules, reps, qs, text, h);
    }
  }

  lemma KeySettlesHits(u: Unicode, rules: seq<Rule>, reps: map<Identity, string>, ps: Patterns, text: string)
    requires Registered(u, rules, reps, ps)
    requires forall r :: r in rules ==> r.Id() in reps
    requires forall i, j :: 0 <= i < j < |rules| ==> rules[i].ruleId != rules[j].ruleId
    ensures KeyDetermines(HitSet(ps.RawHits(text)))
  {
    hide Registered, MatchedBy, AllHits;
    ps.RawHitsAreMatches(text);
    forall h, k | h in HitSet(ps.RawHits(text)) && k in HitSet(ps.RawHits(text))
        && h.start == k.start && h.end == k.end && h.ruleId == k.ruleId
      ensures h == k
    {
      HitIsRuleMatch(u, rules, reps, ps, text, h);
      HitIsRuleMatch(u, rules, reps, ps, text, k);
    }
  }

  // ---------- Protected values ----------

  /** No match ever shares a character with an occurrence of a protected value. */
  ghost predicate ProtectedUntouched(ps: Patterns, protected: seq<string>) {
    forall text, h, pv, j :: ps.Matches(text, h) && pv in protected && OccursAt(pv, text, j) ==> h.end <= j || j + |pv| <= h.start
  }

  /** The check the compiler makes for values, made for every registered form. */
  ghost predicate FormsOverlapFree(u: Unicode, rules: seq<Rule>, protected: seq<string>) {
    forall r, form, pv :: r in rules && form in u.Forms(r) && pv in protected ==> !FoldedOverlap(r.caseSensitive, form, pv)
  }

  lemma FormsAreNonEmpty(u: Unicode, r: Rule)
    requires u.Lawful() && r.value != ""
    ensures "" !in u.Forms(r)
  {
    assert u.LawfulOn(r.value);
  }

  /** Exactly when protected values are safe: no match can ever touch one if and only if no
      registered form - value, normal form or digit alias - overlaps one. */
  lemma ProtectedUntouchedIffFormsOverlapFree(u: Unicode, rules: seq<Rule>, protected: seq<string>,
                                              reps: map<Identity, string>, ps: Patterns)
    requires u.Lawful() && (forall r :: r in rules ==> r.value != "" && r.Id() in reps) && "" !in protected
    requires Registered(u, rules, reps, ps)
    ensures ProtectedUntouched(ps, protected) <==> FormsOverlapFree(u, rules, protected)
  {
    if FormsOverlapFree(u, rules, protected) {
      forall text, h, pv, j | ps.Matches(text, h) && pv in protected && OccursAt(pv, text, j)
        ensures h.end <= j || j + |pv| <= h.start
      {
        HitIsRuleMatch(u, rules, reps, ps, text, h);
        var r :| r in rules && MatchedBy(u, r, text[h.start..h.end]);
        MatchStaysClear(u, r, text, h, pv, j);
      }
    }
    if ProtectedUntouched(ps, protected) {
      forall r, form, pv | r in rules && form in u.Forms(r) && pv in protected
        ensures !FoldedOverlap(r.caseSensitive, form, pv)
      {
        if FoldedOverlap(r.caseSensitive, form, pv) {
          var text, h, j := FormTouches(u, rules, reps, ps, r, form, pv);
        }
      }
    }
  }

  /** An overlapping form does touch the protected value in some text. */
  lemma FormTouches(u: Unicode, rules: seq<Rule>, reps: map<Identity, string>, ps: Patterns, r: Rule, form: string, pv: string)
    returns (text: string, h: Hit, j: int)
    requires u.Lawful() && (forall r :: r in rules ==> r.value != "" && r.Id() in reps) && pv != ""
    requires Registered(u, rules, reps, ps)
    requires r in rules && form in u.Forms(r) && FoldedOverlap(r.caseSensitive, form, pv)
    ensures ps.Matches(text, h) && OccursAt(pv, text, j) && h.start < j + |pv| && j < h.end
  {
    hide *;
    FormsAreNonEmpty(u, r);
    var i;
    text, i, j := FoldedOverlapMeets(r.caseSensitive, form, pv);
    MeetingSpan(u, r, form, pv, text, i, j);
    h := Hit(i, i + |form|, reps[r.Id()], r.ruleId);
    RuleHasMatch(u, rules, reps, ps, text, h, r);
  }

  lemma MeetingSpan(u: Unicode, r: Rule, form: string, pv: string, text: string, i: int, j: int)
    requires form in u.Forms(r) && MeetFolded(r.caseSensitive, form, pv, text, i, j)
    ensures 0 <= i <= i + |form| <= |text| && MatchedBy(u, r, text[i..i + |form|])
    ensures OccursAt(pv, text, j) && i < j + |pv| && j < i + |form|
  {
    ViewSlice(r.caseSensitive, text, i, i + |form|);
    assert View(r.caseSensitive, text[i..i + |form|]) == View(r.caseSensitive, form);
  }

  lemma MatchStaysClear(u: Unicode, r: Rule, text: string, h: Hit, pv: string, j: int)
    requires h.start < h.end <= |text| && MatchedBy(u, r, text[h.start..h.end])
    requires forall form :: form in u.Forms(r) ==> !FoldedOverlap(r.caseSensitive, form, pv)
    requires OccursAt(pv, text, j)
    ensures h.end <= j || j + |pv| <= h.start
  {
    var form :| form in u.Forms(r) && View(r.caseSensitive, form) == View(r.caseSensitive, text[h.start..h.end]);
    AsciiLowerSlice(text, h.start, h.end);
    assert |form| == |View(r.caseSensitive, form)| == h.end - h.start;
    if h.start < j + |pv| && j < h.end {
      MeetingFoldedOverlaps(r.caseSensitive, form, pv, text, h.start, j);
    }
  }

  /** What the compiler's own check buys: with no extra forms, it is enough. */
  lemma PlainPolicyIsSafe(u: Unicode, rules: seq<Rule>, protected: seq<string>)
    requires OverlapFree(rules, protected)
    requires forall r :: r in rules ==> u.Forms(r) == {r.value}
    ensures FormsOverlapFree(u, rules, protected)
  {
  }

  /** And what it misses: the digit alias of an accepted policy can be a protected value. */
  lemma AliasTouchesProtected(u: Unicode, digest: Digest, dataType: string)
    requires u.Lawful() && !u.isDigit('-') && (forall c :: '1' <= c <= '7' ==> u.isDigit(c)) && dataType != ""
    ensures var rule := Rule("r1", None, dataType, "1-234567", true);
      Refusal(u, digest, [rule], ["1234567"]) == None && MatchedBy(u, rule, "1234567")
  {
    var rule := Rule("r1", None, dataType, "1-234567", true);
    DashAside();
    AliasOfDashed(u);
    hide Overlaps;
    assert "1234567" in u.Forms(rule);
    NoSelfConflict(u, rule);
    hide RulesConflict, AliasKeys;
    assert [rule][..0] == [];
    assert FirstRuleError([rule]) == None;
    OnePerTypeFits(digest, IdentitiesOf([rule]));
  }

  lemma AliasOfDashed(u: Unicode)
    requires !u.isDigit('-') && forall c :: '1' <= c <= '7' ==> u.isDigit(c)
    ensures u.Aliases("1-234567") == {"1234567"}
  {
    var a := "1-234567";
    assert a[1..] == "-234567" && a[1..][1..] == "234567";
    DigitsOfDigits(u, "234567");
    assert u.Digits(a) == "1234567";
  }

  lemma DashAside()
    ensures !Overlaps("1-234567", "1234567")
  {
    var a, b := "1-234567", "1234567";
    assert forall i :: 0 < i < |a| ==> a[i] != b[0];
    assert forall i :: 0 < i < |b| ==> b[i] != a[0];
    assert a[1] != b[1];
    forall i | 0 <= i <= |a| ensures !OccursAt(b, a, i) {
      if i + |b| <= |a| {
        assert a[i..i + |b|][0] == a[i] && a[i..i + |b|][1] == a[i + 1];
      }
    }
    forall i | 1 <= i <= |a| && i <= |b| ensures a[|a| - i..] != b[..i] {
      assert a[|a| - i..][0] == a[|a| - i] && b[..i][0] == b[0];
    }
    forall i | 1 <= i <= |a| && i <= |b| ensures b[|b| - i..] != a[..i] {
      assert b[|b| - i..][0] == b[|b| - i] && a[..i][0] == a[0];
      if i == |b| {
        assert b[|b| - i..][1] == b[1] && a[..i][1] == a[1];
      }
    }
  }

  lemma DigitsOfDigits(u: Unicode, s: string)
    requires u.AllDigits(s)
    ensures u.Digits(s) == s
  {
    if s != "" {
      assert u.isDigit(s[0]);
      DigitsOfDigits(u, s[1..]);
      assert s == [s[0]] + s[1..];
    }
  }

  /** Every occurrence of a protected value survives replacement, at its shifted offset. */
  lemma ProtectedValuesSurvive(ps: Patterns, protected: seq<string>, text: string, pv: string, j: nat)
    requires ProtectedUntouched(ps, protected)
    requires pv in protected && pv != "" && OccursAt(pv, text, j)
    ensures OccursAt(pv, ps.Replace(text).0, j + Shift(ps.Find(text), j))
  {
    hide Shift, Weave, LeftmostLongest, AllHits, Produces;
    forall h | ps.Matches(text, h) ensures h.end <= j || j + |pv| <= h.start {
    }
    ps.UnmatchedTextSurvives(text, j, j + |pv|);
  }

  lemma AcceptedRules(u: Unicode, digest: Digest, rules: seq<Rule>, protected: seq<string>)
    requires Refusal(u, digest, rules, protected) == None
    ensures "" !in protected && ConflictFree(u, rules) && OverlapFree(rules, protected) && InsensitiveAreAscii(rules)
    ensures Plan(digest, IdentitiesOf(rules)).Ok?
    ensures forall r :: r in rules ==> r.value != "" && r.Id() in Plan(digest, IdentitiesOf(rules)).value
    ensures forall i, j :: 0 <= i < j < |rules| ==> rules[i].ruleId != rules[j].ruleId
  {
    hide FirstRuleError, RulesConflict, FoldedOverlap, Plan, IsAscii;
    PlanCoversRules(digest, rules);
    forall i | 0 <= i < |rules| ensures rules[i].value != "" && (rules[i].caseSensitive || IsAscii(rules[i].value)) {
      NoRuleError(rules, i);
    }
    forall i, j | 0 <= i < j < |rules| ensures rules[i].ruleId != rules[j].ruleId {
      NoRuleError(rules, j);
    }
  }

  /** An accepted policy whose only registered forms are its values changes no occurrence of a
      protected value in any text, case-insensitive rules included. */
  lemma AcceptedPolicyProtects(u: Unicode, digest: Digest, p: Policy, text: string, pv: string, j: nat)
    requires u.Lawful() && Refusal(u, digest, p.rules, p.protected) == None
    requires Registered(u, p.rules, Plan(digest, IdentitiesOf(p.rules)).value, p.patterns)
    requires forall r :: r in p.rules ==> u.Forms(r) == {r.value}
    requires pv in p.protected && OccursAt(pv, text, j)
    ensures OccursAt(pv, p.patterns.Replace(text).0, j + Shift(p.patterns.Find(text), j))
  {
    hide *;
    AcceptedRules(u, digest, p.rules, p.protected);
    PlainPolicyIsSafe(u, p.rules, p.protected);
    ProtectedUntouchedIffFormsOverlapFree(u, p.rules, p.protected, Plan(digest, IdentitiesOf(p.rules)).value, p.patterns);
    ProtectedValuesSurvive(p.patterns, p.protected, text, pv, j);
  }
}
