/** Accepted policies under which the verifier refuses what the transform has written: one for each
    way in which the conditions of `CorpusGuarantees` can fail. */
module RefusedOutputs {
  import opened Results
  import opened Text
  import opened Occurrences
  import opened Matching
  import opened Overlap
  import opened Pseudonyms
  import opened Policy
  import opened PolicyGuarantees
  import opened JsonTransform
  import opened OutputSafety
  import opened CorpusVerification
  import opened CountSafety
  import opened CorpusGuarantees

  /** The transform takes the file, and the verifier refuses the corpus of its output. */
  ghost predicate OwnOutputRefused(u: Unicode, digest: Digest, p: Policy, c: Context, f: File) {
    && FileProblem(c, f) == None && PlanFits(u, digest, p)
    && !Verified(u, p, Plan(digest, IdentitiesOf(p.rules)).value, c, [f], ExpectedCorpus(c, [f]))
  }

  /** `p` and `c` are what compiling `rules` and `protected` leads to. */
  ghost predicate CompiledFrom(u: Unicode, digest: Digest, rules: seq<Rule>, protected: seq<string>, p: Policy, c: Context) {
    && p.rules == rules && p.protected == protected && c.patterns == p.patterns
    && Plan(digest, IdentitiesOf(rules)).Ok?
    && Registered(u, rules, Plan(digest, IdentitiesOf(rules)).value, p.patterns)
  }

  lemma ScanRefuses(u: Unicode, digest: Digest, p: Policy, c: Context, f: File)
    requires PlanFits(u, digest, p) && FileProblem(c, f) == None && !FileAccepted(c, f, ExpectedFile(c, f))
    ensures OwnOutputRefused(u, digest, p, c, f)
  {
    hide Plan, DistinctPerType, FileAccepted, SearchableAll;
    OneFileCorpus(c, f);
    assert [f][0] == f;
  }

  lemma CountRefuses(u: Unicode, digest: Digest, p: Policy, c: Context, f: File, pv: string)
    requires PlanFits(u, digest, p) && FileProblem(c, f) == None && pv in p.protected && u.nfc(pv) != ""
    requires CountAll(u, pv, Searchable(c, f)) != CountAll(u, pv, Searchable(c, ExpectedFile(c, f)))
    ensures OwnOutputRefused(u, digest, p, c, f)
  {
    hide Plan, DistinctPerType, FileAccepted, SearchableAll, CountAll, Searchable, ExpectedFile;
    OneFileCorpus(c, f);
  }

  lemma SubjectRefuses(u: Unicode, digest: Digest, p: Policy, c: Context, f: File, r: Rule)
    requires PlanFits(u, digest, p) && FileProblem(c, f) == None && r in p.rules
    requires Present(p.patterns, r.ruleId, Searchable(c, f))
    requires var w := Plan(digest, IdentitiesOf(p.rules)).value[r.Id()];
      u.nfc(w) != "" && CountAll(u, w, Searchable(c, ExpectedFile(c, f))) == 0
    ensures OwnOutputRefused(u, digest, p, c, f)
  {
    hide Plan, DistinctPerType, FileAccepted, SearchableAll, CountAll, Searchable, ExpectedFile, Present;
    OneFileCorpus(c, f);
  }

  // ---------- Texts with one match ----------

  /** Rule `r` matches the text at `i..j`, and nothing else matches anywhere in it. */
  ghost predicate OnlyMatch(u: Unicode, rules: seq<Rule>, r: Rule, text: string, i: nat, j: nat) {
    && r in rules && i < j <= |text|
    && forall s, a, b :: s in rules && 0 <= a < b <= |text| ==> (MatchedBy(u, s, text[a..b]) <==> s == r && a == i && b == j)
  }

  /** Then replacement replaces just that. */
  lemma OnlyMatchIsReplaced(u: Unicode, rules: seq<Rule>, reps: map<Identity, string>, ps: Patterns, r: Rule, text: string, i: nat, j: nat)
    requires Registered(u, rules, reps, ps) && (forall s :: s in rules ==> s.Id() in reps) && OnlyMatch(u, rules, r, text, i, j)
    ensures ps.Find(text) == [Hit(i, j, reps[r.Id()], r.ruleId)]
    ensures ps.Replace(text).0 == text[..i] + reps[r.Id()] + text[j..]
  {
    var only := Hit(i, j, reps[r.Id()], r.ruleId);
    forall h ensures ps.Matches(text, h) <==> h == only {
      HitIsRuleMatch(u, rules, reps, ps, text, h);
      hide Patterns.Matches, Registered, MatchedBy;
    }
    hide Patterns.Matches, Registered, MatchedBy;
    ps.OnlyMatchReplaced(text, only);
  }

  /** A case-sensitive ASCII rule without digit alias matches its value alone. */
  lemma OneForm(u: Unicode, r: Rule, w: string)
    requires u.Lawful() && u.Aliases(r.value) == {} && IsAscii(r.value) && r.caseSensitive
    ensures MatchedBy(u, r, w) <==> w == r.value
  {
    assert u.LawfulOn(r.value);
    assert u.Forms(r) == {r.value};
  }

  lemma {:induction false} DigitsShorten(u: Unicode, s: string)
    ensures |u.Digits(s)| <= |s|
  {
    if s != "" {
      DigitsShorten(u, s[1..]);
    }
  }

  lemma ShortHasNoAlias(u: Unicode, s: string)
    requires |s| < 7
    ensures u.Aliases(s) == {}
  {
    DigitsShorten(u, s);
  }

  // ---------- Pseudonyms of known types ----------

  lemma DecimalShape(n: nat)
    requires n < 1000
    ensures 1 <= |Decimal(n)| <= 3 && forall i :: 0 <= i < |Decimal(n)| ==> '0' <= Decimal(n)[i] <= '9'
  {
    if n >= 10 {
      if n >= 100 {
        assert |Decimal(n / 10 / 10)| == 1;
      }
      assert |Decimal(n)| == |Decimal(n / 10)| + 1;
    }
  }

  /** What every address replacement looks like. */
  predicate AddressLike(w: string) {
    && 12 <= |w| <= 14 && w[..11] == "198.51.100."
    && forall i :: 11 <= i < |w| ==> '0' <= w[i] <= '9'
  }

  lemma PlannedAddress(digest: Digest, reps: map<Identity, string>, id: Identity)
    requires FromDigest(digest, reps) && id in reps && id.dataType == "ip_address"
    ensures AddressLike(reps[id])
  {
    var salt: nat :| reps[id] == Candidate(digest, id, salt);
    var n := HexValue(Prefix(digest(id, salt), 8));
    hide Prefix, HexValue, Decimal;
    DecimalShape(1 + n % 253);
    assert reps[id] == "198.51.100." + Decimal(1 + n % 253);
  }

  lemma AddressIsAscii(w: string)
    requires AddressLike(w)
    ensures IsAscii(w)
  {
    forall i | 0 <= i < |w| ensures w[i] < 128 as char {
      if i < 11 {
        assert w[i] == w[..11][i];
      }
    }
  }

  /** What a policy that compiles does to a text with one match, of an address rule. */
  ghost predicate AddressOutput(u: Unicode, digest: Digest, p: Policy, c: Context, r: Rule, text: string, i: nat, j: nat, w: string) {
    && PlanFits(u, digest, p) && r in p.rules && w == Plan(digest, IdentitiesOf(p.rules)).value[r.Id()]
    && AddressLike(w) && IsAscii(w) && u.nfc(w) == w && i <= j <= |text|
    && p.patterns.Find(text) == [Hit(i, j, w, r.ruleId)] && c.patterns == p.patterns
    && c.patterns.Replace(text).0 == text[..i] + w + text[j..]
  }

  lemma AddressReplaces(u: Unicode, digest: Digest, rules: seq<Rule>, protected: seq<string>, p: Policy, c: Context,
                        r: Rule, text: string, i: nat, j: nat) returns (w: string)
    requires u.Lawful() && Refusal(u, digest, rules, protected) == None && CompiledFrom(u, digest, rules, protected, p, c)
    requires OnlyMatch(u, rules, r, text, i, j) && r.dataType == "ip_address"
    ensures AddressOutput(u, digest, p, c, r, text, i, j, w)
  {
    var reps := Plan(digest, IdentitiesOf(rules)).value;
    PlanIsFit(u, digest, p);
    PlanIsInjective(digest, IdentitiesOf(rules));
    hide Plan, Refusal, Registered, MatchedBy, Patterns.Find, Patterns.Replace, DistinctPerType, FromDigest,
         AddressLike;
    w := reps[r.Id()];
    PlannedAddress(digest, reps, r.Id());
    AddressIsAscii(w);
    assert u.LawfulOn(w);
    OnlyMatchIsReplaced(u, rules, reps, p.patterns, r, text, i, j);
  }

  /** A text whose output shows a protected value more or less often. */
  lemma TextCountRefuses(u: Unicode, digest: Digest, p: Policy, c: Context, text: string, pv: string)
    requires PlanFits(u, digest, p) && '\0' !in text && pv in p.protected && pv != ""
    requires u.nfc(pv) == pv && u.nfc(text) == text && u.nfc(c.patterns.Replace(text).0) == c.patterns.Replace(text).0
    requires CountIn(pv, text) != CountIn(pv, c.patterns.Replace(text).0)
    ensures OwnOutputRefused(u, digest, p, c, TextFile(text))
  {
    hide Plan, DistinctPerType, CountIn, Patterns.Replace, OwnOutputRefused, PlanFits, CountAll;
    OneText(u, pv, text);
    OneText(u, pv, c.patterns.Replace(text).0);
    CountRefuses(u, digest, p, c, TextFile(text), pv);
  }

  // ---------- A protected value appears in a pseudonym ----------

  const ADDRESS_RULE := Rule("r1", None, "ip_address", "ab", true)

  /** Every address replacement shows 198, so with 198 protected the file "ab" is refused: the count
      goes from none to one. No pattern overlaps a replacement here. */
  lemma ProtectedCountCanChange(u: Unicode, digest: Digest)
    requires u.Lawful()
    ensures Refusal(u, digest, [ADDRESS_RULE], ["198"]) == None
    ensures forall p, c :: CompiledFrom(u, digest, [ADDRESS_RULE], ["198"], p, c) ==>
      Apart(p.patterns) && OwnOutputRefused(u, digest, p, c, TextFile("ab"))
  {
    NoOverlap198();
    OneRuleAccepted(u, digest, ADDRESS_RULE, ["198"]);
    forall p, c | CompiledFrom(u, digest, [ADDRESS_RULE], ["198"], p, c)
      ensures Apart(p.patterns) && OwnOutputRefused(u, digest, p, c, TextFile("ab"))
    {
      AddressShowsProtected(u, digest, p, c);
      AddressIsApart(u, digest, p, c);
    }
  }

  lemma NoOverlap198()
    ensures !Overlaps("ab", "198")
  {
    var a, b := "ab", "198";
    assert |a| == 2 && |b| == 3 && forall i, j :: 0 <= i < 2 && 0 <= j < 3 ==> a[i] != b[j];
    hide Overlaps;
    if Overlaps(a, b) {
      var x, y := SharedCharacter(a, b);
    }
  }

  lemma SharedCharacter(a: string, b: string) returns (x: nat, y: nat)
    requires a != "" && b != "" && Overlaps(a, b)
    ensures x < |a| && y < |b| && a[x] == b[y]
  {
    var text, i, j := OverlapMeets(a, b);
    var k := if i < j then j else i;
    x, y := k - i, k - j;
    assert text[k] == text[i..i + |a|][x] && text[k] == text[j..j + |b|][y];
  }

  lemma OneRuleAccepted(u: Unicode, digest: Digest, r: Rule, protected: seq<string>)
    requires u.Lawful() && RuleFieldsOk(r) && r.caseSensitive
    requires forall pv :: pv in protected ==> pv != "" && !Overlaps(r.value, pv)
    ensures Refusal(u, digest, [r], protected) == None
  {
    NoSelfConflict(u, r);
    hide RulesConflict, Overlaps;
    assert [r][..0] == [];
    assert FirstRuleError([r]) == None;
    OnePerTypeFits(digest, IdentitiesOf([r]));
  }

  lemma AddressShowsProtected(u: Unicode, digest: Digest, p: Policy, c: Context)
    requires u.Lawful() && Refusal(u, digest, [ADDRESS_RULE], ["198"]) == None
    requires CompiledFrom(u, digest, [ADDRESS_RULE], ["198"], p, c)
    ensures OwnOutputRefused(u, digest, p, c, TextFile("ab"))
  {
    MatchesValueOnly(u, ADDRESS_RULE, "ab");
    hide Refusal, CompiledFrom, OnlyMatch, Unicode.Lawful, CountIn, OwnOutputRefused;
    var w := WholeTextCounts(u, digest, ADDRESS_RULE, "ab", "198", p, c);
    AddressShows198(w);
    TooShortToCount("198", "ab");
  }

  lemma WholeIsReplaced(u: Unicode, digest: Digest, p: Policy, c: Context, r: Rule, text: string, w: string)
    requires AddressOutput(u, digest, p, c, r, text, 0, |text|, w)
    ensures PlanFits(u, digest, p) && c.patterns.Replace(text).0 == w && u.nfc(w) == w && AddressLike(w)
  {
    hide PlanFits, Plan, Patterns.Find, Patterns.Replace, AddressLike;
    assert text[..0] + w + text[|text|..] == w;
  }

  /** An address rule that matches the whole text leaves only an address to count in. */
  lemma WholeTextCounts(u: Unicode, digest: Digest, r: Rule, text: string, pv: string, p: Policy, c: Context) returns (w: string)
    requires u.Lawful() && Refusal(u, digest, [r], [pv]) == None && CompiledFrom(u, digest, [r], [pv], p, c)
    requires OnlyMatch(u, [r], r, text, 0, |text|) && r.dataType == "ip_address"
    requires IsAscii(text) && IsAscii(pv) && '\0' !in text && pv != ""
    ensures AddressLike(w)
    ensures CountIn(pv, text) != CountIn(pv, w) ==> OwnOutputRefused(u, digest, p, c, TextFile(text))
  {
    assert u.LawfulOn(text) && u.LawfulOn(pv);
    Protects(u, digest, [r], [pv], p, c);
    hide *;
    w := AddressReplaces(u, digest, [r], [pv], p, c, r, text, 0, |text|);
    WholeIsReplaced(u, digest, p, c, r, text, w);
    if CountIn(pv, text) != CountIn(pv, w) {
      TextCountRefuses(u, digest, p, c, text, pv);
    }
  }

  lemma Protects(u: Unicode, digest: Digest, rules: seq<Rule>, protected: seq<string>, p: Policy, c: Context)
    requires CompiledFrom(u, digest, rules, protected, p, c)
    ensures p.protected == protected && p.rules == rules
  {
  }

  lemma AddressIsApart(u: Unicode, digest: Digest, p: Policy, c: Context)
    requires u.Lawful() && Refusal(u, digest, [ADDRESS_RULE], ["198"]) == None
    requires CompiledFrom(u, digest, [ADDRESS_RULE], ["198"], p, c)
    ensures Apart(p.patterns)
  {
    var r, reps := ADDRESS_RULE, Plan(digest, IdentitiesOf([ADDRESS_RULE])).value;
    PlanIsInjective(digest, IdentitiesOf([r]));
    ShortHasNoAlias(u, r.value);
    assert u.LawfulOn(r.value);
    assert u.Forms(r) == {r.value} && r.value == "ab" && r.caseSensitive;
    PlanCoversRules(digest, [r]);
    assert r in [r];
    hide *;
    PlannedAddress(digest, reps, r.Id());
    ApartFromAddress(reps[r.Id()]);
    ApartAlone(u, r, reps, p.patterns);
  }

  /** One case-sensitive rule with one form registers one literal with one replacement. */
  lemma ApartAlone(u: Unicode, r: Rule, reps: map<Identity, string>, ps: Patterns)
    requires Registered(u, [r], reps, ps) && u.Forms(r) == {r.value} && r.caseSensitive && r.Id() in reps
    requires !Overlaps(r.value, reps[r.Id()])
    ensures Apart(ps)
  {
    hide Overlaps, Unicode.Forms;
    forall q | q in ps.cs ensures q.literal == r.value && q.replacement == reps[r.Id()] {
      assert RegisteredForm(u, [r], reps, true, q);
    }
    forall q ensures q !in ps.ci {
      assert !RegisteredForm(u, [r], reps, false, q);
    }
  }

  lemma ApartFromAddress(w: string)
    requires AddressLike(w)
    ensures !Overlaps("ab", w)
  {
    hide Overlaps;
    if Overlaps("ab", w) {
      var x, y := SharedCharacter("ab", w);
      if y < 11 {
        AddressStart(w, y);
      }
    }
  }

  lemma AddressStart(w: string, y: nat)
    requires AddressLike(w) && y < 11
    ensures w[y] == '.' || '0' <= w[y] <= '9'
  {
    assert w[y] == w[..11][y];
  }

  lemma AddressShows198(w: string)
    requires AddressLike(w)
    ensures CountIn("198", w) >= 1
  {
    hide CountIn;
    assert w[..3] == w[..11][..3] == "198";
    SomethingToCount("198", w, 0);
  }

  lemma TooShortToCount(w: string, text: string)
    requires w != "" && |text| < |w|
    ensures CountIn(w, text) == 0
  {
  }

  /** A short rule matches its own value as a text, and nothing in it. */
  lemma MatchesValueOnly(u: Unicode, r: Rule, text: string)
    requires u.Lawful() && r.value == text && 0 < |text| < 7 && IsAscii(text) && r.caseSensitive
    ensures OnlyMatch(u, [r], r, text, 0, |text|)
  {
    ShortHasNoAlias(u, text);
    forall s, a, b | s in [r] && 0 <= a < b <= |text|
      ensures MatchedBy(u, s, text[a..b]) <==> s == r && a == 0 && b == |text|
    {
      OneForm(u, r, text[a..b]);
      assert |text[a..b]| == b - a && text[0..|text|] == text;
    }
  }

  // ---------- A replacement joins its surroundings into a pattern ----------

  const JOINING_RULES: seq<Rule> := [Rule("r1", None, "ip_address", "ab", true), Rule("r2", None, "name", "x198", true)]

  /** Every address replacement begins with 198, so the output of "xab" shows "x198". */
  lemma JoinedTextIsRefused(u: Unicode, digest: Digest)
    requires u.Lawful()
    ensures Refusal(u, digest, JOINING_RULES, []) == None
    ensures forall p, c :: CompiledFrom(u, digest, JOINING_RULES, [], p, c) ==> OwnOutputRefused(u, digest, p, c, TextFile("xab"))
  {
    ShortHasNoAlias(u, "ab");
    ShortHasNoAlias(u, "x198");
    TwoRulesAccepted(u, digest, JOINING_RULES[0], JOINING_RULES[1]);
    assert JOINING_RULES == [JOINING_RULES[0], JOINING_RULES[1]];
    forall p, c | CompiledFrom(u, digest, JOINING_RULES, [], p, c)
      ensures OwnOutputRefused(u, digest, p, c, TextFile("xab"))
    {
      JoinedOutput(u, digest, p, c);
    }
  }

  /** Two ASCII rules of different types and values without aliases compile. */
  lemma TwoRulesAccepted(u: Unicode, digest: Digest, r: Rule, s: Rule)
    requires u.Lawful() && RuleFieldsOk(r) && RuleFieldsOk(s) && r.caseSensitive && s.caseSensitive && r.ruleId != s.ruleId
    requires IsAscii(r.value) && IsAscii(s.value) && u.Aliases(r.value) == {} && u.Aliases(s.value) == {}
    requires r.dataType != s.dataType && r.value != s.value
    ensures Refusal(u, digest, [r, s], []) == None
  {
    var rules := [r, s];
    assert rules[..1] == [r] && rules[..0] == [];
    assert FirstRuleError([r]) == None by {
      assert [r][..0] == [];
    }
    assert FirstRuleError(rules) == None;
    hide FirstRuleError;
    assert u.LawfulOn(r.value) && u.LawfulOn(s.value);
    assert !RulesConflict(u, r, s);
    NoSelfConflict(u, r);
    NoSelfConflict(u, s);
    ConflictSymmetric(u, r, s);
    hide RulesConflict;
    var ids := IdentitiesOf(rules);
    assert ids[0].dataType != ids[1].dataType;
    OnePerTypeFits(digest, ids);
  }

  lemma JoinedOutput(u: Unicode, digest: Digest, p: Policy, c: Context)
    requires u.Lawful() && Refusal(u, digest, JOINING_RULES, []) == None && CompiledFrom(u, digest, JOINING_RULES, [], p, c)
    ensures OwnOutputRefused(u, digest, p, c, TextFile("xab"))
  {
    var r, s := JOINING_RULES[0], JOINING_RULES[1];
    assert r.dataType == "ip_address" && s in p.rules && s.value == "x198" && s.caseSensitive && IsAscii(s.value);
    assert Registered(u, p.rules, Plan(digest, IdentitiesOf(p.rules)).value, p.patterns) && '\0' !in "xab";
    hide *;
    JoiningMatch(u);
    ShortHasNoAlias(u, s.value);
    OneForm(u, s, s.value);
    var w := AddressReplaces(u, digest, JOINING_RULES, [], p, c, r, "xab", 1, 3);
    JoinedBegins(u, digest, p, c, r, w);
    ShowsRule(u, digest, p, c, "xab", s, c.patterns.Replace("xab").0);
  }

  lemma JoinedBegins(u: Unicode, digest: Digest, p: Policy, c: Context, r: Rule, w: string)
    requires AddressOutput(u, digest, p, c, r, "xab", 1, 3, w)
    ensures PlanFits(u, digest, p) && c.patterns == p.patterns
    ensures var out := c.patterns.Replace("xab").0; 4 <= |out| && out[0..4] == "x198"
  {
    hide PlanFits, Plan, Patterns.Find, Patterns.Replace;
    var out := c.patterns.Replace("xab").0;
    assert out == "x" + w + "" == "x" + w;
    assert out[0..4] == "x" + w[..11][..3];
  }

  /** An output that begins with a text the rule matches. */
  lemma ShowsRule(u: Unicode, digest: Digest, p: Policy, c: Context, text: string, s: Rule, out: string)
    requires PlanFits(u, digest, p) && Registered(u, p.rules, Plan(digest, IdentitiesOf(p.rules)).value, p.patterns)
    requires c.patterns == p.patterns && '\0' !in text && s in p.rules && out == c.patterns.Replace(text).0
    requires 4 <= |out| && MatchedBy(u, s, out[0..4])
    ensures OwnOutputRefused(u, digest, p, c, TextFile(text))
  {
    hide Plan, Registered, MatchedBy, Patterns.Find, Patterns.Replace, DistinctPerType, OwnOutputRefused;
    var reps := Plan(digest, IdentitiesOf(p.rules)).value;
    var h := Hit(0, 4, reps[s.Id()], s.ruleId);
    RuleHasMatch(u, p.rules, reps, p.patterns, out, h, s);
    MatchedIsNotClean(p.patterns, out, h);
    ScanRefuses(u, digest, p, c, TextFile(text));
  }

  lemma MatchedIsNotClean(ps: Patterns, text: string, h: Hit)
    requires ps.Matches(text, h)
    ensures ps.Find(text) != []
  {
    ps.FindsNothingIffNoMatch(text);
  }

  lemma JoiningMatch(u: Unicode)
    requires u.Lawful()
    ensures OnlyMatch(u, JOINING_RULES, JOINING_RULES[0], "xab", 1, 3)
  {
    var rules, text := JOINING_RULES, "xab";
    ShortHasNoAlias(u, "ab");
    ShortHasNoAlias(u, "x198");
    forall s, a, b | s in rules && 0 <= a < b <= |text|
      ensures MatchedBy(u, s, text[a..b]) <==> s == rules[0] && a == 1 && b == 3
    {
      OneForm(u, s, text[a..b]);
      assert |text[a..b]| == b - a && text[a..b][0] == text[a] && text[1..3] == "ab";
    }
  }

  // ---------- An alias is a protected value ----------

  /** The digit alias of a rule can be a protected value, and then its count falls. */
  lemma AliasLosesProtected(u: Unicode, digest: Digest)
    requires u.Lawful() && !u.isDigit('-') && forall c :: '1' <= c <= '7' ==> u.isDigit(c)
    ensures var r := Rule("r1", None, "ip_address", "1-234567", true);
      && Refusal(u, digest, [r], ["1234567"]) == None
      && forall p, c :: CompiledFrom(u, digest, [r], ["1234567"], p, c) ==> OwnOutputRefused(u, digest, p, c, TextFile("1234567"))
  {
    var r := Rule("r1", None, "ip_address", "1-234567", true);
    AliasTouchesProtected(u, digest, "ip_address");
    AliasOfDashed(u);
    forall p, c | CompiledFrom(u, digest, [r], ["1234567"], p, c)
      ensures OwnOutputRefused(u, digest, p, c, TextFile("1234567"))
    {
      AliasOutput(u, digest, p, c, r);
    }
  }

  lemma AliasOutput(u: Unicode, digest: Digest, p: Policy, c: Context, r: Rule)
    requires u.Lawful() && r == Rule("r1", None, "ip_address", "1-234567", true)
    requires Refusal(u, digest, [r], ["1234567"]) == None && CompiledFrom(u, digest, [r], ["1234567"], p, c)
    requires u.Aliases(r.value) == {"1234567"}
    ensures OwnOutputRefused(u, digest, p, c, TextFile("1234567"))
  {
    var text := "1234567";
    AliasMatch(u, r);
    hide Refusal, CompiledFrom, OnlyMatch, Unicode.Lawful, CountIn, OwnOutputRefused;
    var w := WholeTextCounts(u, digest, r, text, text, p, c);
    hide AddressLike;
    WholeCounts(text);
    NoSevenDigits(w);
    NothingToCount(text, w);
  }

  lemma WholeCounts(w: string)
    requires w != ""
    ensures CountIn(w, w) >= 1
  {
    SomethingToCount(w, w, 0);
  }

  /** Seven characters of an address include a dot. */
  lemma NoSevenDigits(w: string)
    requires AddressLike(w)
    ensures forall i :: !OccursAt("1234567", w, i)
  {
    forall i ensures !OccursAt("1234567", w, i) {
      if 0 <= i && i + 7 <= |w| {
        var dot := if i <= 3 then 3 else if i <= 6 then 6 else 10;
        assert w[dot] == w[..11][dot] == '.';
        assert w[i..i + 7][dot - i] == '.';
      }
    }
  }

  lemma AliasMatch(u: Unicode, r: Rule)
    requires u.Lawful() && r == Rule("r1", None, "ip_address", "1-234567", true) && u.Aliases(r.value) == {"1234567"}
    ensures OnlyMatch(u, [r], r, "1234567", 0, 7)
  {
    var text := "1234567";
    assert u.LawfulOn(r.value);
    assert u.Forms(r) == {r.value, text};
    forall s, a, b | s in [r] && 0 <= a < b <= |text|
      ensures MatchedBy(u, s, text[a..b]) <==> s == r && a == 0 && b == 7
    {
      assert |text[a..b]| == b - a && text[0..7] == text;
      assert text in u.Forms(r);
    }
  }

  // ---------- Two spellings of a number belong to two subjects ----------

  const EXPONENT := Rule("r1", None, "ip_address", "1e+20", true)
  const EXPANDED := Rule("r2", None, "name", "100000000000000000000", true)

  /** Two rules for spellings of a number: one with an exponent, one expanded. */
  ghost predicate SpellingRules(r: Rule, s: Rule) {
    && RuleFieldsOk(r) && RuleFieldsOk(s) && r.caseSensitive && s.caseSensitive && r.ruleId != s.ruleId
    && r.dataType == "ip_address" && s.dataType == "name"
    && IsAscii(r.value) && |r.value| < 7 && 'e' in r.value
    && |r.value| < |s.value| && s.value[0] == '1' && forall i :: 0 <= i < |s.value| ==> s.value[i] == '0' || s.value[i] == '1'
  }

  ghost predicate KnowsDigits(u: Unicode) {
    u.isDigit('0') && u.isDigit('1')
  }

  /** The two rules compiled, and `v` is the number with these two spellings. */
  ghost predicate Spelled(u: Unicode, digest: Digest, r: Rule, s: Rule, p: Policy, c: Context, v: Json) {
    && CompiledFrom(u, digest, [r, s], [], p, c)
    && c.tokens(v) == [r.value, s.value] && c.ruleDigits == [u.Digits(r.value), u.Digits(s.value)]
  }

  /** The number 1e20 is replaced by its first spelling alone, while its second spelling makes the
      other rule's subject present: the subject's pseudonym is missing. */
  lemma SpellingsCanDisagree(u: Unicode, digest: Digest, v: Json)
    requires u.Lawful() && KnowsDigits(u) && IsNumber(v) && forall id, salt :: IsAscii(digest(id, salt))
    ensures Refusal(u, digest, [EXPONENT, EXPANDED], []) == None
    ensures forall p, c :: Spelled(u, digest, EXPONENT, EXPANDED, p, c, v) ==> OwnOutputRefused(u, digest, p, c, JsonFile(v))
  {
    assert EXPONENT.value[1] == 'e';
    TwoSpellingsRefuse(u, digest, EXPONENT, EXPANDED, v);
  }

  lemma TwoSpellingsRefuse(u: Unicode, digest: Digest, r: Rule, s: Rule, v: Json)
    requires u.Lawful() && KnowsDigits(u) && IsNumber(v) && SpellingRules(r, s) && forall id, salt :: IsAscii(digest(id, salt))
    ensures Refusal(u, digest, [r, s], []) == None
    ensures forall p, c :: Spelled(u, digest, r, s, p, c, v) ==> OwnOutputRefused(u, digest, p, c, JsonFile(v))
  {
    SpelledDigits(u, r, s);
    TwoRulesAccepted(u, digest, r, s);
    hide *;
    forall p, c | Spelled(u, digest, r, s, p, c, v) ensures OwnOutputRefused(u, digest, p, c, JsonFile(v)) {
      SpelledOutput(u, digest, r, s, p, c, v);
    }
  }

  lemma SpelledDigits(u: Unicode, r: Rule, s: Rule)
    requires KnowsDigits(u) && SpellingRules(r, s)
    ensures |u.Digits(r.value)| < 7 && u.Digits(s.value) == s.value && u.Aliases(r.value) == {} && u.Aliases(s.value) == {}
    ensures IsAscii(s.value) && r.value != s.value
  {
    DigitsOfDigits(u, s.value);
    DigitsShorten(u, r.value);
  }

  lemma SpelledMatches(u: Unicode, r: Rule, s: Rule)
    requires u.Lawful() && KnowsDigits(u) && SpellingRules(r, s)
    ensures OnlyMatch(u, [r, s], r, r.value, 0, |r.value|) && OnlyMatch(u, [r, s], s, s.value, 0, |s.value|)
  {
    SpelledDigits(u, r, s);
    var rules := [r, s];
    hide Unicode.Digits, Unicode.Aliases, MatchedBy, IsAscii;
    forall q, a, b | q in rules && 0 <= a < b <= |r.value| ensures MatchedBy(u, q, r.value[a..b]) <==> q == r && a == 0 && b == |r.value| {
      OneForm(u, q, r.value[a..b]);
      WindowOrWhole(r.value, a, b);
      OtherSpelling(r.value, s.value, a, b);
    }
    forall q, a, b | q in rules && 0 <= a < b <= |s.value| ensures MatchedBy(u, q, s.value[a..b]) <==> q == s && a == 0 && b == |s.value| {
      OneForm(u, q, s.value[a..b]);
      WindowOrWhole(s.value, a, b);
      OtherSpelling(r.value, s.value, a, b);
    }
  }

  lemma WindowOrWhole(w: string, a: nat, b: nat)
    requires a < b <= |w|
    ensures w[a..b] == w <==> a == 0 && b == |w|
  {
    assert |w[a..b]| == b - a && w[0..|w|] == w;
  }

  /** Neither spelling is a part of the other. */
  lemma OtherSpelling(short: string, long: string, a: nat, b: nat)
    requires a < b && 'e' in short && 0 < |short| && long != "" && long[0] == '1'
    requires forall i :: 0 <= i < |long| ==> long[i] == '0' || long[i] == '1'
    ensures b <= |long| ==> long[a..b] != short
    ensures b <= |short| < |long| ==> short[a..b] != long
  {
    if b <= |long| {
      assert forall x :: x in long[a..b] ==> x in long;
    }
  }

  lemma SpelledOutput(u: Unicode, digest: Digest, r: Rule, s: Rule, p: Policy, c: Context, v: Json)
    requires u.Lawful() && KnowsDigits(u) && IsNumber(v) && SpellingRules(r, s) && forall id, salt :: IsAscii(digest(id, salt))
    requires Refusal(u, digest, [r, s], []) == None && Spelled(u, digest, r, s, p, c, v)
    ensures OwnOutputRefused(u, digest, p, c, JsonFile(v))
  {
    assert CompiledFrom(u, digest, [r, s], [], p, c) && s in [r, s] && r.dataType == "ip_address" && s.dataType == "name";
    hide *;
    SpelledMatches(u, r, s);
    Protects(u, digest, [r, s], [], p, c);
    var w := AddressReplaces(u, digest, [r, s], [], p, c, r, r.value, 0, |r.value|);
    WholeIsReplaced(u, digest, p, c, r, r.value, w);
    NoLossyNumber(u, digest, r, s, p, c, v);
    SecondIsFound(u, digest, r, s, p, c);
    SpelledStrings(u, digest, r, s, p, c, v, w);
    PersonNotShown(u, digest, p, s, w);
    SpelledPresent(p.patterns, s.ruleId, s.value, Searchable(c, JsonFile(v)));
    SubjectRefuses(u, digest, p, c, JsonFile(v), s);
  }

  lemma NoLossyNumber(u: Unicode, digest: Digest, r: Rule, s: Rule, p: Policy, c: Context, v: Json)
    requires KnowsDigits(u) && IsNumber(v) && SpellingRules(r, s) && Spelled(u, digest, r, s, p, c, v)
    ensures FileProblem(c, JsonFile(v)) == None && Searchable(c, JsonFile(v)) == [r.value, s.value]
  {
    SpelledDigits(u, r, s);
    hide CompiledFrom, Unicode.Digits, Unicode.Aliases;
    assert forall d :: d in c.ruleDigits ==> d == u.Digits(r.value) || d == s.value;
    assert NumberProblem(c, v) == None;
  }

  lemma SecondIsFound(u: Unicode, digest: Digest, r: Rule, s: Rule, p: Policy, c: Context)
    requires u.Lawful() && Refusal(u, digest, [r, s], []) == None && CompiledFrom(u, digest, [r, s], [], p, c)
    requires OnlyMatch(u, [r, s], s, s.value, 0, |s.value|)
    ensures s in p.rules && exists h :: h in p.patterns.Find(s.value) && h.ruleId == s.ruleId
  {
    var reps := Plan(digest, IdentitiesOf([r, s])).value;
    PlanCoversRules(digest, [r, s]);
    hide Plan, Refusal, Registered, MatchedBy, Patterns.Find, Patterns.Replace, OnlyMatch;
    OnlyMatchIsReplaced(u, [r, s], reps, p.patterns, s, s.value, 0, |s.value|);
    assert Hit(0, |s.value|, reps[s.Id()], s.ruleId) in p.patterns.Find(s.value);
  }

  lemma SpelledPresent(ps: Patterns, ruleId: string, text: string, texts: seq<string>)
    requires (exists h :: h in ps.Find(text) && h.ruleId == ruleId) && |texts| == 2 && texts[1] == text
    ensures Present(ps, ruleId, texts)
  {
    hide Patterns.Find;
    assert text in texts;
  }

  lemma SpelledStrings(u: Unicode, digest: Digest, r: Rule, s: Rule, p: Policy, c: Context, v: Json, w: string)
    requires IsNumber(v) && SpellingRules(r, s) && Spelled(u, digest, r, s, p, c, v)
    requires AddressLike(w) && c.patterns.Replace(r.value).0 == w
    ensures Searchable(c, ExpectedFile(c, JsonFile(v))) == [w]
  {
    c.patterns.FindsNothingIffNoMatch(r.value);
    hide CompiledFrom, Patterns.Replace, Patterns.Find, Patterns.Clean;
    assert c.patterns.Replace(c.tokens(v)[0]).1 > 0;
    NumberStrings(c, v);
  }

  /** A name's pseudonym begins with a letter, and an address has none. */
  lemma PersonNotShown(u: Unicode, digest: Digest, p: Policy, s: Rule, w: string)
    requires u.Lawful() && PlanFits(u, digest, p) && s in p.rules && s.dataType == "name" && AddressLike(w) && u.nfc(w) == w
    requires forall id, salt :: IsAscii(digest(id, salt))
    ensures var person := Plan(digest, IdentitiesOf(p.rules)).value[s.Id()];
      u.nfc(person) != "" && CountAll(u, person, [w]) == 0
  {
    PlanIsInjective(digest, IdentitiesOf(p.rules));
    var reps := Plan(digest, IdentitiesOf(p.rules)).value;
    hide Plan, DistinctPerType, CountAll, CountIn, FromDigest, AddressLike;
    PersonBegins(digest, reps, s.Id());
    LetterNotShown(u, reps[s.Id()], w);
  }

  lemma PersonBegins(digest: Digest, reps: map<Identity, string>, id: Identity)
    requires FromDigest(digest, reps) && id in reps && id.dataType == "name" && forall id, salt :: IsAscii(digest(id, salt))
    ensures IsAscii(reps[id]) && reps[id] != "" && reps[id][0] == 'P'
  {
    var salt: nat :| reps[id] == Candidate(digest, id, salt);
    assert IsAscii(digest(id, salt));
    AsciiJoined("Person-", Prefix(digest(id, salt), 10));
  }

  lemma LetterNotShown(u: Unicode, person: string, w: string)
    requires u.Lawful() && IsAscii(person) && person != "" && person[0] == 'P' && AddressLike(w) && u.nfc(w) == w
    ensures u.nfc(person) != "" && CountAll(u, person, [w]) == 0
  {
    assert u.LawfulOn(person);
    hide CountIn, CountAll, AddressLike, Unicode.Lawful;
    forall i ensures !OccursAt(person, w, i) {
      if OccursAt(person, w, i) {
        assert w[i] == w[i..i + |person|][0];
        NoLetters(w, i);
      }
    }
    NothingToCount(person, w);
    OneText(u, person, w);
  }

  lemma AsciiJoined(a: string, b: string)
    requires IsAscii(a) && IsAscii(b)
    ensures IsAscii(a + b)
  {
  }

  lemma NoLetters(w: string, i: nat)
    requires AddressLike(w) && i < |w|
    ensures w[i] != 'P'
  {
    if i < 11 {
      assert w[i] == w[..11][i];
    }
  }

  // ---------- A mark after a pseudonym composes with it ----------

  const EMAIL_RULE := Rule("r1", None, "email", "a@b.c", true)
  const DOT_BELOW: string := "\U{0323}"

  /** What NFC makes of a d with a dot below at the end of ASCII text. */
  ghost predicate KnowsDotBelow(u: Unicode) {
    forall s :: IsAscii(s) ==> u.nfc(s + ("d" + DOT_BELOW)) == s + "\U{1E0D}"
  }

  /** Normal text need not be plain: an e-mail pseudonym ends with a d, and a dot below that follows
      the address composes with it, so that the normalized output does not show the pseudonym. */
  lemma MarkHidesPseudonym(u: Unicode, digest: Digest)
    requires u.Lawful() && KnowsDotBelow(u) && forall id, salt :: IsAscii(digest(id, salt))
    ensures Refusal(u, digest, [EMAIL_RULE], []) == None
    ensures forall p, c :: CompiledFrom(u, digest, [EMAIL_RULE], [], p, c) ==>
      OwnOutputRefused(u, digest, p, c, TextFile(EMAIL_RULE.value + DOT_BELOW))
  {
    OneRuleAccepted(u, digest, EMAIL_RULE, []);
    MarkedMatch(u);
    assert EMAIL_RULE.dataType == "email" && '\0' !in EMAIL_RULE.value + DOT_BELOW;
    hide *;
    forall p, c | CompiledFrom(u, digest, [EMAIL_RULE], [], p, c)
      ensures OwnOutputRefused(u, digest, p, c, TextFile(EMAIL_RULE.value + DOT_BELOW))
    {
      MarkedOutput(u, digest, p, c, EMAIL_RULE);
    }
  }

  lemma MarkedMatch(u: Unicode)
    requires u.Lawful()
    ensures OnlyMatch(u, [EMAIL_RULE], EMAIL_RULE, EMAIL_RULE.value + DOT_BELOW, 0, |EMAIL_RULE.value|)
  {
    var r, text := EMAIL_RULE, EMAIL_RULE.value + DOT_BELOW;
    ShortHasNoAlias(u, r.value);
    assert text[0..5] == r.value && |text| == 6;
    forall s, a, b | s in [r] && 0 <= a < b <= |text| ensures MatchedBy(u, s, text[a..b]) <==> s == r && a == 0 && b == 5 {
      OneForm(u, r, text[a..b]);
      assert |text[a..b]| == b - a && text[a..b][0] == text[a];
    }
  }

  lemma MarkedOutput(u: Unicode, digest: Digest, p: Policy, c: Context, r: Rule)
    requires u.Lawful() && KnowsDotBelow(u) && (forall id, salt :: IsAscii(digest(id, salt))) && r.dataType == "email"
    requires Refusal(u, digest, [r], []) == None && CompiledFrom(u, digest, [r], [], p, c)
    requires OnlyMatch(u, [r], r, r.value + DOT_BELOW, 0, |r.value|) && '\0' !in r.value + DOT_BELOW
    ensures OwnOutputRefused(u, digest, p, c, TextFile(r.value + DOT_BELOW))
  {
    hide *;
    Protects(u, digest, [r], [], p, c);
    assert r in [r];
    var w := MarkedReplaced(u, digest, p, c, r);
    MarkedIsHidden(u, w);
    TextSubjectRefuses(u, digest, p, c, r.value + DOT_BELOW, Hit(0, |r.value|, w, r.ruleId), r, w);
  }

  lemma MarkedReplaced(u: Unicode, digest: Digest, p: Policy, c: Context, r: Rule) returns (w: string)
    requires u.Lawful() && (forall id, salt :: IsAscii(digest(id, salt))) && r.dataType == "email"
    requires Refusal(u, digest, [r], []) == None && CompiledFrom(u, digest, [r], [], p, c)
    requires OnlyMatch(u, [r], r, r.value + DOT_BELOW, 0, |r.value|)
    ensures PlanFits(u, digest, p) && w == Plan(digest, IdentitiesOf(p.rules)).value[r.Id()]
    ensures IsAscii(w) && |w| > 1 && w[|w| - 1] == 'd'
    ensures c.patterns == p.patterns && p.patterns.Find(r.value + DOT_BELOW) == [Hit(0, |r.value|, w, r.ruleId)]
    ensures c.patterns.Replace(r.value + DOT_BELOW).0 == w + DOT_BELOW
  {
    var text, reps := r.value + DOT_BELOW, Plan(digest, IdentitiesOf([r])).value;
    PlanIsFit(u, digest, p);
    PlanIsInjective(digest, IdentitiesOf([r]));
    hide Plan, Refusal, Registered, MatchedBy, Patterns.Find, Patterns.Replace, DistinctPerType, OnlyMatch,
         FromDigest, IsAscii;
    w := reps[r.Id()];
    EmailEnds(u, digest, reps, r.Id());
    OnlyMatchIsReplaced(u, [r], reps, p.patterns, r, text, 0, |r.value|);
    assert text[..0] + w + text[|r.value|..] == w + DOT_BELOW;
  }

  /** A text whose output lacks the pseudonym of a rule found in it. */
  lemma TextSubjectRefuses(u: Unicode, digest: Digest, p: Policy, c: Context, text: string, h: Hit, r: Rule, w: string)
    requires PlanFits(u, digest, p) && '\0' !in text && r in p.rules && w == Plan(digest, IdentitiesOf(p.rules)).value[r.Id()]
    requires h in p.patterns.Find(text) && h.ruleId == r.ruleId
    requires u.nfc(w) != "" && CountAll(u, w, [c.patterns.Replace(text).0]) == 0
    ensures OwnOutputRefused(u, digest, p, c, TextFile(text))
  {
    hide Plan, DistinctPerType, CountAll, Patterns.Find, Patterns.Replace, OwnOutputRefused, PlanFits;
    assert text in [text];
    assert Present(p.patterns, r.ruleId, [text]);
    SubjectRefuses(u, digest, p, c, TextFile(text), r);
  }

  lemma EmailEnds(u: Unicode, digest: Digest, reps: map<Identity, string>, id: Identity)
    requires FromDigest(digest, reps) && id in reps && id.dataType == "email" && forall id, salt :: IsAscii(digest(id, salt))
    ensures IsAscii(reps[id]) && |reps[id]| > 1 && reps[id][|reps[id]| - 1] == 'd'
  {
    var salt: nat :| reps[id] == Candidate(digest, id, salt);
    assert IsAscii(digest(id, salt));
    AsciiJoined("user-", Prefix(digest(id, salt), 10));
    AsciiJoined("user-" + Prefix(digest(id, salt), 10), "@example.invalid");
  }

  lemma MarkedIsHidden(u: Unicode, w: string)
    requires u.Lawful() && KnowsDotBelow(u) && IsAscii(w) && |w| > 1 && w[|w| - 1] == 'd'
    ensures u.nfc(w) != "" && CountAll(u, w, [w + DOT_BELOW]) == 0
  {
    var stem := w[..|w| - 1];
    assert u.LawfulOn(w);
    assert w + DOT_BELOW == stem + ("d" + DOT_BELOW);
    var out := stem + "\U{1E0D}";
    assert u.nfc(w + DOT_BELOW) == out;
    assert |out| == |w| && out[0..|w|] == out && out[|w| - 1] != w[|w| - 1];
    NothingToCount(w, out);
    OneText(u, w, w + DOT_BELOW);
  }
}
