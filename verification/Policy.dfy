/** Compiling a policy: identity conflicts, protected overlaps, and pattern registration. */
module Policy {
  import opened Text
  import opened Results
  import opened Occurrences
  import opened Matching
  import opened Overlap
  import opened Pseudonyms

  datatype Rule = Rule(ruleId: string, subjectId: Option<string>, dataType: string, value: string, caseSensitive: bool) {
    function Id(): Identity {
      Identity(dataType, if subjectId.Some? then subjectId.value else ruleId)
    }
  }

  /** The Unicode operations the compiler calls. */
  datatype Unicode = Unicode(nfc: string -> string, nfd: string -> string, isDigit: char -> bool) {

    function Digits(s: string): string {
      if s == "" then "" else (if isDigit(s[0]) then [s[0]] else "") + Digits(s[1..])
    }

    /** The digits-only form of a phone- or account-like value, when it is a different text. */
    function Aliases(s: string): set<string> {
      if |Digits(s)| >= 7 && Digits(s) != s then {Digits(s)} else {}
    }

    function Forms(rule: Rule): set<string> {
      {rule.value, nfc(rule.value), nfd(rule.value)} + Aliases(rule.value)
    }

    /** The laws of normalization that matching relies on. */
    ghost predicate Lawful() {
      forall s :: LawfulOn(s)
    }

    ghost predicate LawfulOn(s: string) {
      && nfc(nfd(s)) == nfc(s) && nfc(nfc(s)) == nfc(s)
      && (IsAscii(s) ==> nfc(s) == s && nfd(s) == s)
      && (s != "" ==> nfc(s) != "" && nfd(s) != "")
      && (AllDigits(s) ==> nfc(s) == s)
    }

    /** Slices of normalized text are normalized. */
    ghost predicate SlicesStay() {
      forall s, i, j :: 0 <= i <= j <= |s| && nfc(s) == s ==> nfc(s[i..j]) == s[i..j]
    }

    /** Nothing composes with an ASCII character that follows it. */
    ghost predicate AsciiSeparates() {
      forall a, b :: b != "" && b[0] < 128 as char ==> nfc(a + b) == nfc(a) + nfc(b)
    }

    predicate AllDigits(s: string) {
      forall i :: 0 <= i < |s| ==> isDigit(s[i])
    }

    lemma DigitsAreDigits(s: string)
      ensures AllDigits(Digits(s))
      ensures IsAscii(s) ==> IsAscii(Digits(s))
    {
      if s != "" {
        DigitsAreDigits(s[1..]);
      }
    }
  }

  predicate IsAscii(s: string) {
    forall i :: 0 <= i < |s| ==> s[i] < 128 as char
  }

  // ---------- Identity conflicts ----------

  /** One registration of a rule under a match-domain key. */
  datatype Claim = Claim(rule: Rule, isAlias: bool)

  function ValueKey(u: Unicode, rule: Rule): string {
    AsciiLower(u.nfc(rule.value))
  }

  function AliasKeys(u: Unicode, rule: Rule): seq<string> {
    if u.Aliases(rule.value) == {} then [] else [AsciiLower(u.Digits(rule.value))]
  }

  ghost predicate Claims(u: Unicode, rule: Rule, key: string, isAlias: bool) {
    if isAlias then key in AliasKeys(u, rule) else key == ValueKey(u, rule)
  }

  /** Two claims on one key that different identities may not both hold. */
  predicate Conflict(a: Claim, b: Claim) {
    && a.rule.Id() != b.rule.Id()
    && (a.isAlias || b.isAlias || !(a.rule.caseSensitive && b.rule.caseSensitive) || a.rule.value == b.rule.value)
  }

  ghost predicate RulesConflict(u: Unicode, r: Rule, s: Rule) {
    exists key, a, b :: Claims(u, r, key, a) && Claims(u, s, key, b) && Conflict(Claim(r, a), Claim(s, b))
  }

  ghost predicate ConflictFree(u: Unicode, rules: seq<Rule>) {
    forall r, s :: r in rules && s in rules ==> !RulesConflict(u, r, s)
  }

  predicate Recorded(domain: map<string, seq<Claim>>, key: string, c: Claim) {
    key in domain && c in domain[key]
  }

  /** `domain` holds exactly the claims of the rules registered so far. */
  ghost predicate RecordsClaims(u: Unicode, domain: map<string, seq<Claim>>, rules: seq<Rule>) {
    forall key, c :: Recorded(domain, key, c) <==> c.rule in rules && Claims(u, c.rule, key, c.isAlias)
  }

  /** One key of one rule: compare with the prior claims, then record it. */
  method ClaimKey(domain: map<string, seq<Claim>>, key: string, c: Claim)
    returns (conflict: bool, domain': map<string, seq<Claim>>)
    ensures conflict <==> exists p :: Recorded(domain, key, p) && Conflict(p, c)
    ensures forall k, p :: Recorded(domain', k, p) <==> Recorded(domain, k, p) || (k == key && p == c)
  {
    var prior := if key in domain then domain[key] else [];
    domain' := domain[key := prior + [c]];
    for i := 0 to |prior|
      invariant forall p :: p in prior[..i] ==> !Conflict(p, c)
    {
      if Conflict(prior[i], c) {
        assert Recorded(domain, key, prior[i]);
        return true, domain';
      }
    }
    assert prior[..|prior|] == prior;
    conflict := false;
  }

  lemma ConflictSymmetric(u: Unicode, r: Rule, s: Rule)
    ensures RulesConflict(u, r, s) <==> RulesConflict(u, s, r)
  {
    if key, a, b :| Claims(u, r, key, a) && Claims(u, s, key, b) && Conflict(Claim(r, a), Claim(s, b)) {
      assert Conflict(Claim(s, b), Claim(r, a));
    }
    if key, a, b :| Claims(u, s, key, a) && Claims(u, r, key, b) && Conflict(Claim(s, a), Claim(r, b)) {
      assert Conflict(Claim(r, b), Claim(s, a));
    }
  }

  /** The keys of one rule, value first, then digit alias. */
  method ClaimRule(u: Unicode, domain: map<string, seq<Claim>>, ghost before: seq<Rule>, rule: Rule)
    returns (conflict: bool, domain': map<string, seq<Claim>>)
    requires RecordsClaims(u, domain, before)
    ensures conflict <==> exists p :: p in before && RulesConflict(u, p, rule)
    ensures !conflict ==> RecordsClaims(u, domain', before + [rule])
  {
    hide AliasKeys, ValueKey, Conflict;
    OneAlias(u, rule);
    SameIdentityNoConflict(rule);
    conflict, domain' := ClaimKey(domain, ValueKey(u, rule), Claim(rule, false));
    if conflict {
      ghost var p :| Recorded(domain, ValueKey(u, rule), p) && Conflict(p, Claim(rule, false));
      assert Claims(u, rule, ValueKey(u, rule), false);
      assert RulesConflict(u, p.rule, rule);
      return;
    }
    var aliases := AliasKeys(u, rule);
    if aliases != [] {
      ghost var middle := domain';
      var key := aliases[0];
      conflict, domain' := ClaimKey(domain', key, Claim(rule, true));
      if conflict {
        ghost var p :| Recorded(middle, key, p) && Conflict(p, Claim(rule, true));
        assert Recorded(domain, key, p);
        assert Claims(u, rule, key, true);
        assert RulesConflict(u, p.rule, rule);
        return;
      }
    }
    forall p, key, a, b | p in before && Claims(u, p, key, a) && Claims(u, rule, key, b)
      ensures !Conflict(Claim(p, a), Claim(rule, b))
    {
      assert Recorded(domain, key, Claim(p, a));
    }
  }

  method FindConflict(u: Unicode, rules: seq<Rule>) returns (conflict: bool)
    ensures conflict == !ConflictFree(u, rules)
  {
    hide RulesConflict, RecordsClaims;
    var domain: map<string, seq<Claim>> := map[];
    NothingRecorded(u);
    for i := 0 to |rules|
      invariant RecordsClaims(u, domain, rules[..i])
      invariant ConflictFree(u, rules[..i])
    {
      conflict, domain := ClaimRule(u, domain, rules[..i], rules[i]);
      assert rules[..i + 1] == rules[..i] + [rules[i]];
      if conflict {
        return;
      }
      NoSelfConflict(u, rules[i]);
      forall p | p in rules[..i] ensures !RulesConflict(u, rules[i], p) {
        ConflictSymmetric(u, rules[i], p);
      }
    }
    assert rules[..|rules|] == rules;
    conflict := false;
  }

  lemma OneAlias(u: Unicode, rule: Rule)
    ensures AliasKeys(u, rule) != [] ==> AliasKeys(u, rule) == [AliasKeys(u, rule)[0]]
  {
  }

  lemma SameIdentityNoConflict(rule: Rule)
    ensures forall a, b :: !Conflict(Claim(rule, a), Claim(rule, b))
  {
  }

  lemma NothingRecorded(u: Unicode)
    ensures RecordsClaims(u, map[], [])
  {
  }

  lemma NoSelfConflict(u: Unicode, r: Rule)
    ensures !RulesConflict(u, r, r)
  {
  }

  // ---------- Protected overlap ----------

  ghost predicate OverlapFree(rules: seq<Rule>, protected: seq<string>) {
    forall r, pv :: r in rules && pv in protected ==> !FoldedOverlap(r.caseSensitive, r.value, pv)
  }

  method CheckOverlap(rules: seq<Rule>, protected: seq<string>) returns (clear: bool)
    ensures clear == OverlapFree(rules, protected)
  {
    hide FoldedOverlap;
    for i := 0 to |rules|
      invariant OverlapFree(rules[..i], protected)
    {
      var rule := rules[i];
      for j := 0 to |protected|
        invariant forall k :: 0 <= k < j ==> !FoldedOverlap(rule.caseSensitive, rule.value, protected[k])
      {
        var overlap := ComparePair(rule, protected[j]);
        if overlap {
          assert rule in rules && protected[j] in protected;
          return false;
        }
      }
      assert rules[..i + 1] == rules[..i] + [rules[i]];
    }
    assert rules[..|rules|] == rules;
    return true;
  }

  /** The five comparisons the nested loop makes for one rule and one protected value. */
  method ComparePair(rule: Rule, protected: string) returns (overlap: bool)
    ensures overlap == FoldedOverlap(rule.caseSensitive, rule.value, protected)
  {
    hide Contains, BoundaryOverlap;
    var a, b := View(rule.caseSensitive, rule.value), View(rule.caseSensitive, protected);
    var ab := FindBoundaryOverlap(a, b);
    var ba := FindBoundaryOverlap(b, a);
    return a == b || Contains(b, a) || Contains(a, b) || ab || ba;
  }

  // ---------- Registration ----------

  /** Rule `r` matches the span text `w`: some registered form of it does, under its case rule. */
  ghost predicate MatchedBy(u: Unicode, r: Rule, w: string) {
    exists form :: form in u.Forms(r) && View(r.caseSensitive, form) == View(r.caseSensitive, w)
  }

  /** The registration of a form of some rule, with its identity's pseudonym. */
  ghost predicate TripleOf(u: Unicode, rules: seq<Rule>, reps: map<Identity, string>, caseSensitive: bool,
          t: (string, string, string)) {
    exists r :: r in rules && r.caseSensitive == caseSensitive && r.Id() in reps
      && t.0 in u.Forms(r) && t.1 == reps[r.Id()] && t.2 == r.ruleId
  }

  ghost predicate RegisteredForm(u: Unicode, rules: seq<Rule>, reps: map<Identity, string>, caseSensitive: bool, p: Pattern) {
    exists form ::
      TripleOf(u, rules, reps, caseSensitive, (form, p.replacement, p.ruleId)) && p.literal == View(caseSensitive, form)
  }

  /** The matcher holds exactly the forms of the rules, each carrying its identity's pseudonym. */
  ghost predicate Registered(u: Unicode, rules: seq<Rule>, reps: map<Identity, string>, ps: Patterns) {
    && (forall p :: p in ps.cs <==> RegisteredForm(u, rules, reps, true, p))
    && (forall p :: p in ps.ci <==> RegisteredForm(u, rules, reps, false, p))
  }

  /** A hit of the compiled matcher is a rule matching the span's text, and conversely. */
  lemma HitIsRuleMatch(u: Unicode, rules: seq<Rule>, reps: map<Identity, string>, ps: Patterns, text: string, h: Hit)
    requires Registered(u, rules, reps, ps) && forall r :: r in rules ==> r.Id() in reps
    ensures ps.Matches(text, h) <==>
      && h.start < h.end <= |text|
      && exists r :: r in rules && MatchedBy(u, r, text[h.start..h.end]) && h.replacement == reps[r.Id()] && h.ruleId == r.ruleId
  {
    if ps.Matches(text, h) {
      MatchHasRule(u, rules, reps, ps, text, h);
    }
    if h.start < h.end <= |text| {
      if r :| r in rules && MatchedBy(u, r, text[h.start..h.end]) && h.replacement == reps[r.Id()] && h.ruleId == r.ruleId {
        RuleHasMatch(u, rules, reps, ps, text, h, r);
      }
    }
  }

  ghost predicate Increasing(at: seq<nat>) {
    forall j, k :: 0 <= j < k < |at| ==> at[j] < at[k]
  }

  /** `at` lists the positions of the digits of `s`, all of them. */
  ghost predicate ListsDigits(u: Unicode, s: string, at: seq<nat>) {
    && (forall k :: 0 <= k < |at| ==> at[k] < |s| && u.isDigit(s[at[k]]))
    && (forall i: nat :: i < |s| && u.isDigit(s[i]) ==> i in at)
  }

  ghost predicate ReadsAt(s: string, at: seq<nat>, d: string) {
    |at| == |d| && forall k :: 0 <= k < |at| ==> at[k] < |s| && d[k] == s[at[k]]
  }

  /** `d` is what remains of `s` when everything but its digits, found at `at`, is dropped. */
  ghost predicate DigitsAt(u: Unicode, s: string, d: string, at: seq<nat>) {
    Increasing(at) && ListsDigits(u, s, at) && ReadsAt(s, at, d)
  }

  /** A form of a value: the value, one of its normal forms, or its digits if there are at least
      seven of them and something else was dropped. */
  ghost predicate IsForm(u: Unicode, value: string, form: string) {
    || form == value || form == u.nfc(value) || form == u.nfd(value)
    || (7 <= |form| && form != value && exists at :: DigitsAt(u, value, form, at))
  }

  lemma {:induction false} DigitsSpelled(u: Unicode, s: string) returns (at: seq<nat>)
    ensures DigitsAt(u, s, u.Digits(s), at)
  {
    if s == "" {
      at := [];
    } else {
      var n := |s| - 1;
      LastDigit(u, s);
      hide Unicode.Digits, Increasing, ListsDigits, ReadsAt;
      at := DigitsSpelled(u, s[..n]);
      OneMoreCharacter(u, s[..n], u.Digits(s[..n]), at, s[n]);
      assert s[..n] + [s[n]] == s;
      at := if u.isDigit(s[n]) then at + [n] else at;
    }
  }

  lemma OneMoreCharacter(u: Unicode, s: string, d: string, at: seq<nat>, c: char)
    requires DigitsAt(u, s, d, at)
    ensures if u.isDigit(c) then DigitsAt(u, s + [c], d + [c], at + [|s|]) else DigitsAt(u, s + [c], d, at)
  {
    var t := s + [c];
    assert forall i :: 0 <= i < |s| ==> t[i] == s[i];
    forall i: nat | i < |t| && u.isDigit(t[i]) ensures i in at || (i == |s| && u.isDigit(c)) {
      if i < |s| {
        assert u.isDigit(s[i]);
      }
    }
  }

  lemma {:induction false} LastDigit(u: Unicode, s: string)
    requires s != ""
    ensures u.Digits(s) == u.Digits(s[..|s| - 1]) + if u.isDigit(s[|s| - 1]) then [s[|s| - 1]] else ""
  {
    var n := |s| - 1;
    if n > 0 {
      LastDigit(u, s[1..]);
      assert s[1..][..n - 1] == s[..n][1..];
    }
  }

  /** The digits and their positions are unique. */
  lemma DigitsAreUnique(u: Unicode, s: string, d: string, at: seq<nat>)
    requires DigitsAt(u, s, d, at)
    ensures d == u.Digits(s)
  {
    var at' := DigitsSpelled(u, s);
    SamePositions(u, s, at, at');
    assert d == u.Digits(s) by {
      hide Unicode.Digits;
    }
  }

  lemma SamePositions(u: Unicode, s: string, a: seq<nat>, b: seq<nat>)
    requires Increasing(a) && Increasing(b) && ListsDigits(u, s, a) && ListsDigits(u, s, b)
    ensures a == b
  {
    forall i: nat ensures i in a <==> i in b {
    }
    hide ListsDigits;
    SameElements(a, b);
  }

  lemma {:induction false} SameElements(a: seq<nat>, b: seq<nat>)
    requires Increasing(a) && Increasing(b) && forall i: nat :: i in a <==> i in b
    ensures a == b
    decreases |a|
  {
    if a == [] {
      HasElement(b);
    } else {
      var m := |a| - 1;
      assert a[m] in a && b != [];
      var n := |b| - 1;
      assert b[n] in b;
      LastIsGreatest(a);
      LastIsGreatest(b);
      hide Increasing;
      assert a[m] == b[n];
      assert a[m] in b && b[n] in a;
      forall i: nat ensures i in a[..m] <==> i in b[..n] {
        assert i in a[..m] <==> i in a && i != a[m];
        assert i in b[..n] <==> i in b && i != b[n];
      }
      SameElements(a[..m], b[..n]);
      assert a == a[..m] + [a[m]] && b == b[..n] + [b[n]];
    }
  }

  lemma HasElement(a: seq<nat>)
    ensures a != [] ==> exists i: nat :: i in a
  {
    if a != [] {
      assert a[0] in a;
    }
  }

  lemma LastIsGreatest(a: seq<nat>)
    requires Increasing(a) && a != []
    ensures forall i: nat :: i in a ==> i <= a[|a| - 1]
    ensures Increasing(a[..|a| - 1])
    ensures forall i: nat :: i in a[..|a| - 1] <==> i in a && i != a[|a| - 1]
  {
    assert a == a[..|a| - 1] + [a[|a| - 1]];
  }

  /** The registered forms of a rule are exactly these. */
  lemma FormsAreSpelled(u: Unicode, r: Rule, form: string)
    ensures form in u.Forms(r) <==> IsForm(u, r.value, form)
  {
    var at := DigitsSpelled(u, r.value);
    hide DigitsAt, Unicode.Digits;
    if at' :| DigitsAt(u, r.value, form, at') {
      DigitsAreUnique(u, r.value, form, at');
    }
  }

  /** The span's text is a form of the rule's value, up to ASCII case for a case-insensitive rule. */
  ghost predicate Writes(u: Unicode, r: Rule, span: string, form: string) {
    IsForm(u, r.value, form) && if r.caseSensitive then span == form else SameButForCase(span, form)
  }

  lemma MatchedIsWritten(u: Unicode, r: Rule, span: string)
    ensures MatchedBy(u, r, span) <==> exists form :: Writes(u, r, span, form)
  {
    hide IsForm, SameButForCase, Unicode.Forms;
    forall form
      ensures form in u.Forms(r) && View(r.caseSensitive, form) == View(r.caseSensitive, span) <==> Writes(u, r, span, form)
    {
      FormsAreSpelled(u, r, form);
      LoweredAgree(span, form);
    }
  }

  /** What a compiled policy matches, spelled out. */
  lemma MatchesAreWrittenForms(u: Unicode, rules: seq<Rule>, reps: map<Identity, string>, ps: Patterns, text: string, h: Hit)
    requires Registered(u, rules, reps, ps) && forall r :: r in rules ==> r.Id() in reps
    ensures ps.Matches(text, h) <==>
      && h.start < h.end <= |text|
      && exists r, form :: r in rules && Writes(u, r, text[h.start..h.end], form)
           && h.replacement == reps[r.Id()] && h.ruleId == r.ruleId
  {
    HitIsRuleMatch(u, rules, reps, ps, text, h);
    if h.start < h.end <= |text| {
      var span := text[h.start..h.end];
      hide MatchedBy, Writes, Registered, Patterns.Matches;
      forall r | r in rules ensures MatchedBy(u, r, span) <==> exists form :: Writes(u, r, span, form) {
        MatchedIsWritten(u, r, span);
      }
    }
  }

  lemma MatchHasRule(u: Unicode, rules: seq<Rule>, reps: map<Identity, string>, ps: Patterns, text: string, h: Hit)
    requires Registered(u, rules, reps, ps) && ps.Matches(text, h)
    ensures h.start < h.end <= |text|
    ensures exists r :: r in rules && MatchedBy(u, r, text[h.start..h.end]) && r.Id() in reps
              && h.replacement == reps[r.Id()] && h.ruleId == r.ruleId
  {
    hide RegisteredForm, MatchedBy;
    if p :| p in ps.cs && Produces(p, text, h) {
      PatternHasRule(u, rules, reps, true, p, text[h.start..h.end]);
    } else {
      var p :| p in ps.ci && Produces(p, AsciiLower(text), h);
      AsciiLowerSlice(text, h.start, h.end);
      PatternHasRule(u, rules, reps, false, p, text[h.start..h.end]);
    }
  }

  lemma RuleHasMatch(u: Unicode, rules: seq<Rule>, reps: map<Identity, string>, ps: Patterns, text: string, h: Hit, r: Rule)
    requires Registered(u, rules, reps, ps) && h.start < h.end <= |text|
    requires r in rules && r.Id() in reps && MatchedBy(u, r, text[h.start..h.end])
    requires h.replacement == reps[r.Id()] && h.ruleId == r.ruleId
    ensures ps.Matches(text, h)
  {
    ViewSlice(r.caseSensitive, text, h.start, h.end);
    var w := View(r.caseSensitive, text[h.start..h.end]);
    var form :| form in u.Forms(r) && View(r.caseSensitive, form) == w;
    var p := Pattern(w, reps[r.Id()], r.ruleId);
    assert TripleOf(u, rules, reps, r.caseSensitive, (form, p.replacement, p.ruleId));
    assert RegisteredForm(u, rules, reps, r.caseSensitive, p);
    hide RegisteredForm, TripleOf, MatchedBy;
    assert Produces(p, View(r.caseSensitive, text), h);
  }

  lemma PatternHasRule(u: Unicode, rules: seq<Rule>, reps: map<Identity, string>, caseSensitive: bool, p: Pattern, w: string)
    requires RegisteredForm(u, rules, reps, caseSensitive, p) && p.literal == View(caseSensitive, w)
    ensures exists r :: r in rules && MatchedBy(u, r, w) && r.Id() in reps
              && p.replacement == reps[r.Id()] && p.ruleId == r.ruleId
  {
    var form :| TripleOf(u, rules, reps, caseSensitive, (form, p.replacement, p.ruleId))
      && p.literal == View(caseSensitive, form);
    var r :| r in rules && r.caseSensitive == caseSensitive && r.Id() in reps
      && form in u.Forms(r) && p.replacement == reps[r.Id()] && p.ruleId == r.ruleId;
    assert MatchedBy(u, r, w);
  }

  method RegisterPatterns(u: Unicode, rules: seq<Rule>, reps: map<Identity, string>)
    returns (rulesCs: seq<(string, string, string)>, rulesCi: seq<(string, string, string)>)
    requires forall r :: r in rules ==> r.Id() in reps
    ensures Registered(u, rules, reps, PatternsOf(rulesCs, rulesCi))
  {
    rulesCs, rulesCi := [], [];
    for i := 0 to |rules|
      invariant forall t :: t in rulesCs <==> TripleOf(u, rules[..i], reps, true, t)
      invariant forall t :: t in rulesCi <==> TripleOf(u, rules[..i], reps, false, t)
    {
      var rule := rules[i];
      var rep := reps[rule.Id()];
      var forms := u.Forms(rule);
      ghost var cs0, ci0 := rulesCs, rulesCi;
      ghost var done: set<string> := {};
      while forms != {}
        invariant forms + done == u.Forms(rule)
        invariant forall t :: t in rulesCs <==>
          t in cs0 || (rule.caseSensitive && exists f :: f in done && t == (f, rep, rule.ruleId))
        invariant forall t :: t in rulesCi <==>
          t in ci0 || (!rule.caseSensitive && exists f :: f in done && t == (f, rep, rule.ruleId))
      {
        var form :| form in forms;
        forms := forms - {form};
        done := done + {form};
        var triple := (form, rep, rule.ruleId);
        if rule.caseSensitive {
          rulesCs := rulesCs + [triple];
        } else {
          rulesCi := rulesCi + [triple];
        }
      }
      TriplesGrow(u, rules[..i], rule, reps);
      assert rules[..i + 1] == rules[..i] + [rule];
    }
    assert rules[..|rules|] == rules;
    TriplesRegister(u, rules, reps, rulesCs, rulesCi);
  }

  lemma TriplesGrow(u: Unicode, rules: seq<Rule>, rule: Rule, reps: map<Identity, string>)
    requires rule.Id() in reps
    ensures forall cs, t :: TripleOf(u, rules + [rule], reps, cs, t) <==>
      || TripleOf(u, rules, reps, cs, t)
      || (rule.caseSensitive == cs && t.0 in u.Forms(rule) && t.1 == reps[rule.Id()] && t.2 == rule.ruleId)
  {
  }

  lemma TriplesRegister(u: Unicode, rules: seq<Rule>, reps: map<Identity, string>,
                        rulesCs: seq<(string, string, string)>, rulesCi: seq<(string, string, string)>)
    requires forall t :: t in rulesCs <==> TripleOf(u, rules, reps, true, t)
    requires forall t :: t in rulesCi <==> TripleOf(u, rules, reps, false, t)
    ensures Registered(u, rules, reps, PatternsOf(rulesCs, rulesCi))
  {
    PatternsFromTriples(u, rules, reps, true, rulesCs, PatternsOf(rulesCs, rulesCi).cs);
    PatternsFromTriples(u, rules, reps, false, rulesCi, PatternsOf(rulesCs, rulesCi).ci);
  }

  lemma PatternsFromTriples(u: Unicode, rules: seq<Rule>, reps: map<Identity, string>, caseSensitive: bool,
                            triples: seq<(string, string, string)>, patterns: seq<Pattern>)
    requires forall t :: t in triples <==> TripleOf(u, rules, reps, caseSensitive, t)
    requires |triples| == |patterns|
    requires forall i :: 0 <= i < |triples| ==>
      patterns[i] == Pattern(View(caseSensitive, triples[i].0), triples[i].1, triples[i].2)
    ensures forall p :: p in patterns <==> RegisteredForm(u, rules, reps, caseSensitive, p)
  {
    hide TripleOf, View;
    forall p | p in patterns ensures RegisteredForm(u, rules, reps, caseSensitive, p) {
      var i :| 0 <= i < |patterns| && patterns[i] == p;
      assert triples[i] in triples;
      assert triples[i] == (triples[i].0, p.replacement, p.ruleId);
    }
    forall p | RegisteredForm(u, rules, reps, caseSensitive, p) ensures p in patterns {
      var form :| TripleOf(u, rules, reps, caseSensitive, (form, p.replacement, p.ruleId))
        && p.literal == View(caseSensitive, form);
      assert (form, p.replacement, p.ruleId) in triples;
      var i :| 0 <= i < |triples| && triples[i] == (form, p.replacement, p.ruleId);
      assert patterns[i] == p;
    }
  }

  // ---------- Compilation ----------

  datatype PolicyError = InvalidPolicy | DuplicateRuleId | NonAsciiInsensitive | IdentityConflict
                       | ProtectedSensitiveOverlap | NamespaceFull

  datatype Policy = Policy(rules: seq<Rule>, protected: seq<string>, patterns: Patterns)

  predicate RuleFieldsOk(r: Rule) {
    r.ruleId != "" && r.dataType != "" && r.value != "" && r.subjectId != Some("")
  }

  function RuleIds(rules: seq<Rule>): set<string> {
    set r | r in rules :: r.ruleId
  }

  /** What is wrong with the first bad rule, if any. */
  function FirstRuleError(rules: seq<Rule>): Option<PolicyError> {
    if rules == [] then None
    else
      var n := |rules| - 1;
      var r := rules[n];
      if FirstRuleError(rules[..n]).Some? then FirstRuleError(rules[..n])
      else if !RuleFieldsOk(r) then Some(InvalidPolicy)
      else if r.ruleId in RuleIds(rules[..n]) then Some(DuplicateRuleId)
      else if !r.caseSensitive && !IsAscii(r.value) then Some(NonAsciiInsensitive)
      else None
  }

  function IdentitiesOf(rules: seq<Rule>): seq<Identity> {
    seq(|rules|, i requires 0 <= i < |rules| => rules[i].Id())
  }

  /** What an accepted policy is made of. */
  ghost predicate WellFormedRules(rules: seq<Rule>) {
    && (forall r :: r in rules ==> r.ruleId != "" && r.dataType != "" && r.value != "" && r.subjectId != Some(""))
    && (forall i, j :: 0 <= i < j < |rules| ==> rules[i].ruleId != rules[j].ruleId)
    && (forall r :: r in rules && !r.caseSensitive ==> forall c :: c in r.value ==> c < 128 as char)
  }

  /** What each error about rules says about them. */
  ghost predicate BlamesRules(e: PolicyError, rules: seq<Rule>) {
    match e
    case InvalidPolicy =>
      exists r :: r in rules && (r.ruleId == "" || r.dataType == "" || r.value == "" || r.subjectId == Some(""))
    case DuplicateRuleId => exists i, j :: 0 <= i < j < |rules| && rules[i].ruleId == rules[j].ruleId
    case NonAsciiInsensitive => exists r, c :: r in rules && !r.caseSensitive && c in r.value && c >= 128 as char
    case _ => false
  }

  lemma BlamesLonger(e: PolicyError, rules: seq<Rule>, n: nat)
    requires n <= |rules| && BlamesRules(e, rules[..n])
    ensures BlamesRules(e, rules)
  {
    assert forall r :: r in rules[..n] ==> r in rules;
    if e == DuplicateRuleId {
      var i, j :| 0 <= i < j < n && rules[..n][i].ruleId == rules[..n][j].ruleId;
      assert rules[i].ruleId == rules[j].ruleId;
    }
  }

  lemma SomethingNotAscii(s: string)
    ensures !IsAscii(s) ==> exists c :: c in s && c >= 128 as char
  {
    if i :| 0 <= i < |s| && !(s[i] < 128 as char) {
      assert s[i] in s;
    }
  }

  lemma NewRuleIsBlamed(rules: seq<Rule>)
    requires rules != [] && FirstRuleError(rules[..|rules| - 1]).None? && FirstRuleError(rules).Some?
    ensures BlamesRules(FirstRuleError(rules).value, rules)
  {
    var n := |rules| - 1;
    assert rules[n] in rules;
    SomethingNotAscii(rules[n].value);
    if RuleFieldsOk(rules[n]) && rules[n].ruleId in RuleIds(rules[..n]) {
      var i :| 0 <= i < n && rules[..n][i].ruleId == rules[n].ruleId;
      assert rules[i].ruleId == rules[n].ruleId;
    }
  }

  lemma {:induction false} RuleErrorIsBlamed(rules: seq<Rule>)
    requires FirstRuleError(rules).Some?
    ensures BlamesRules(FirstRuleError(rules).value, rules)
  {
    var n := |rules| - 1;
    if FirstRuleError(rules[..n]).Some? {
      RuleErrorIsBlamed(rules[..n]);
      EarlierErrorWins(rules);
      hide BlamesRules, FirstRuleError;
      BlamesLonger(FirstRuleError(rules).value, rules, n);
    } else {
      NewRuleIsBlamed(rules);
    }
  }

  lemma NoErrorIsWellFormed(rules: seq<Rule>)
    requires FirstRuleError(rules).None?
    ensures WellFormedRules(rules)
  {
    forall i | 0 <= i < |rules|
      ensures RuleFieldsOk(rules[i]) && (rules[i].caseSensitive || IsAscii(rules[i].value))
      ensures forall j :: 0 <= j < i ==> rules[j].ruleId != rules[i].ruleId
    {
      NoRuleError(rules, i);
    }
    hide FirstRuleError;
  }

  /** The reason a policy is refused: the first check that fails, in the compiler's order. */
  ghost function Refusal(u: Unicode, digest: Digest, rules: seq<Rule>, protected: seq<string>): Option<PolicyError> {
    if FirstRuleError(rules).Some? then FirstRuleError(rules)
    else if "" in protected then Some(InvalidPolicy)
    else if !ConflictFree(u, rules) then Some(IdentityConflict)
    else if !OverlapFree(rules, protected) then Some(ProtectedSensitiveOverlap)
    else if Plan(digest, IdentitiesOf(rules)).Err? then Some(NamespaceFull)
    else None
  }

  method Compile(u: Unicode, digest: Digest, rules: seq<Rule>, protected: seq<string>)
    returns (r: Result<Policy, PolicyError>)
    ensures r.Err? ==> Refusal(u, digest, rules, protected) == Some(r.error)
    ensures r.Ok? ==>
      && Refusal(u, digest, rules, protected) == None
      && r.value.rules == rules && r.value.protected == protected
      && Registered(u, rules, Plan(digest, IdentitiesOf(rules)).value, r.value.patterns)
    ensures r.Ok? ==> WellFormedRules(rules) && "" !in protected
  {
    var ruleError := ScreenRules(rules);
    if ruleError.Some? {
      return Err(ruleError.value);
    }
    for i := 0 to |protected|
      invariant "" !in protected[..i]
    {
      if protected[i] == "" {
        return Err(InvalidPolicy);
      }
    }
    assert protected[..|protected|] == protected;
    var conflict := FindConflict(u, rules);
    if conflict {
      return Err(IdentityConflict);
    }
    var clear := CheckOverlap(rules, protected);
    if !clear {
      return Err(ProtectedSensitiveOverlap);
    }
    var plan := BuildReplacements(digest, IdentitiesOf(rules));
    if plan.Err? {
      return Err(NamespaceFull);
    }
    PlanCoversRules(digest, rules);
    var rulesCs, rulesCi := RegisterPatterns(u, rules, plan.value);
    r := Ok(Policy(rules, protected, PatternsOf(rulesCs, rulesCi)));
  }

  method ScreenRules(rules: seq<Rule>) returns (e: Option<PolicyError>)
    ensures e == FirstRuleError(rules)
    ensures if e.Some? then BlamesRules(e.value, rules) else WellFormedRules(rules)
  {
    var seen: set<string> := {};
    for i := 0 to |rules|
      invariant seen == RuleIds(rules[..i])
      invariant FirstRuleError(rules[..i]) == None
    {
      hide RuleFieldsOk, IsAscii, RuleIds, BlamesRules, WellFormedRules;
      var r := rules[i];
      var upTo := rules[..i + 1];
      RuleIdsSnoc(rules, i);
      if !RuleFieldsOk(r) || r.ruleId in seen || (!r.caseSensitive && !IsAscii(r.value)) {
        ErrorPersists(rules, i + 1);
        RuleErrorIsBlamed(rules);
        return FirstRuleError(upTo);
      }
      seen := seen + {r.ruleId};
    }
    assert rules[..|rules|] == rules;
    NoErrorIsWellFormed(rules);
    e := None;
  }

  lemma RuleIdsSnoc(rules: seq<Rule>, i: nat)
    requires i < |rules|
    ensures rules[..i + 1][..i] == rules[..i]
    ensures RuleIds(rules[..i + 1]) == RuleIds(rules[..i]) + {rules[i].ruleId}
  {
    assert rules[..i + 1] == rules[..i] + [rules[i]];
  }

  lemma EarlierErrorWins(rules: seq<Rule>)
    requires rules != [] && FirstRuleError(rules[..|rules| - 1]).Some?
    ensures FirstRuleError(rules) == FirstRuleError(rules[..|rules| - 1])
  {
    hide RuleFieldsOk, RuleIds, IsAscii;
  }

  lemma ErrorPersists(rules: seq<Rule>, n: nat)
    requires n <= |rules| && FirstRuleError(rules[..n]).Some?
    ensures FirstRuleError(rules) == FirstRuleError(rules[..n])
  {
    hide FirstRuleError;
    if n < |rules| {
      var m := |rules| - 1;
      assert rules[..m][..n] == rules[..n];
      ErrorPersists(rules[..m], n);
      EarlierErrorWins(rules);
    } else {
      assert rules[..n] == rules;
    }
  }

  lemma PlanCoversRules(digest: Digest, rules: seq<Rule>)
    requires Plan(digest, IdentitiesOf(rules)).Ok?
    ensures forall r :: r in rules ==> r.Id() in Plan(digest, IdentitiesOf(rules)).value
  {
    PlanIsInjective(digest, IdentitiesOf(rules));
    forall r | r in rules ensures r.Id() in AsSet(IdentitiesOf(rules)) {
      var i :| 0 <= i < |rules| && rules[i] == r;
      assert IdentitiesOf(rules)[i] == r.Id();
    }
  }

  lemma {:induction false} NoRuleError(rules: seq<Rule>, i: nat)
    requires FirstRuleError(rules) == None && i < |rules|
    ensures RuleFieldsOk(rules[i]) && (rules[i].caseSensitive || IsAscii(rules[i].value))
    ensures forall j :: 0 <= j < i ==> rules[j].ruleId != rules[i].ruleId
  {
    hide RuleFieldsOk, IsAscii;
    var n := |rules| - 1;
    if i < n {
      assert rules[..n][..i] == rules[..i];
      NoRuleError(rules[..n], i);
    } else {
      forall j | 0 <= j < i ensures rules[j].ruleId != rules[i].ruleId {
        assert rules[j] in rules[..i];
      }
    }
  }
}
