/** Whether what the transform writes passes the verifier's literal scan and its comparison of
    trees: an exact condition on the compiled policy, and a simpler one that suffices. */
module OutputGuarantees {
  import opened Results
  import opened Occurrences
  import opened Replacement
  import opened Matching
  import opened Pseudonyms
  import opened Policy
  import opened PolicyGuarantees
  import opened JsonTransform
  import opened OutputSafety

  // ---------- From texts to trees ----------

  /** A number that is kept has no spelling the patterns touch. */
  lemma {:induction false} KeptNumberIsClean(c: Context, tokens: seq<string>, t: string)
    requires OutputsAreClean(c.patterns) && NumberReplacement(c, tokens) == None && t in tokens
    ensures c.patterns.Find(t) == []
  {
    hide Patterns.Find, Patterns.Replace;
    if t == tokens[0] {
      c.patterns.FindsNothingIffNoMatch(t);
      assert c.patterns.Clean(c.patterns.Replace(t).0);
    } else {
      KeptNumberIsClean(c, tokens[1..], t);
    }
  }

  /** A replaced number is the output of one of its spellings. */
  lemma {:induction false} ReplacedNumberIsOutput(c: Context, tokens: seq<string>) returns (t: string)
    requires NumberReplacement(c, tokens).Some?
    ensures NumberReplacement(c, tokens).value == c.patterns.Replace(t)
  {
    hide Patterns.Replace;
    t := tokens[0];
    if c.patterns.Replace(t).1 == 0 || c.patterns.Replace(t).0 == t {
      t := ReplacedNumberIsOutput(c, tokens[1..]);
    }
  }

  lemma NumberIsClean(c: Context, v: Json, s: string)
    requires OutputsAreClean(c.patterns) && IsNumber(v) && s in Strings(c, ExpectedNumber(c, v))
    ensures c.patterns.Find(s) == []
  {
    hide Patterns.Find, Patterns.Replace;
    if NumberReplacement(c, c.tokens(v)).None? {
      KeptNumberIsClean(c, c.tokens(v), s);
    } else {
      var t := ReplacedNumberIsOutput(c, c.tokens(v));
      OutputIsClean(c, t);
    }
  }

  lemma OutputIsClean(c: Context, t: string)
    requires OutputsAreClean(c.patterns)
    ensures c.patterns.Find(c.patterns.Replace(t).0) == []
  {
    assert c.patterns.Clean(c.patterns.Replace(t).0);
    c.patterns.FindsNothingIffNoMatch(c.patterns.Replace(t).0);
  }

  /** With clean outputs, no string of a transformed tree shows a pattern: not a rewritten leaf,
      not a kept number's spelling, not a key, which the transform has checked. */
  lemma {:induction false} TransformedTreeIsClean(c: Context, v: Json, depth: nat, s: string)
    requires OutputsAreClean(c.patterns) && Problem(c, v, depth) == None && s in Strings(c, Expected(c, v))
    ensures c.patterns.Find(s) == []
    decreases v, 1
  {
    hide Patterns.Find, Patterns.Replace, OutputsAreClean, NumberProblem;
    match v {
      case Str(t) => OutputIsClean(c, t);
      case Int(_) => NumberIsClean(c, v, s);
      case Float(_, _) => NumberIsClean(c, v, s);
      case List(items) =>
        var i := StringOfItem(c, ExpectedItems(c, items), s);
        ItemHasNoProblem(c, items, depth, i);
        TransformedTreeIsClean(c, items[i], depth + 1, s);
      case Obj(entries) =>
        var i := StringOfEntry(c, ExpectedEntries(c, entries), s);
        EntryHasNoProblem(c, entries, depth, i);
        if s != entries[i].key {
          assert entries[i] in entries;
          TransformedTreeIsClean(c, entries[i].item, depth + 1, s);
        }
      case _ =>
    }
  }

  lemma {:induction false} StringOfItem(c: Context, items: seq<Json>, s: string) returns (i: nat)
    requires s in StringsOfItems(c, items)
    ensures i < |items| && s in Strings(c, items[i])
  {
    hide Strings;
    i := 0;
    if s !in Strings(c, items[0]) {
      i := StringOfItem(c, items[1..], s);
      i := i + 1;
    }
  }

  lemma {:induction false} StringOfEntry(c: Context, entries: seq<Member>, s: string) returns (i: nat)
    requires s in StringsOfEntries(c, entries)
    ensures i < |entries| && (s == entries[i].key || s in Strings(c, entries[i].item))
  {
    hide Strings;
    i := 0;
    if s != entries[0].key && s !in Strings(c, entries[0].item) {
      i := StringOfEntry(c, entries[1..], s);
      i := i + 1;
    }
  }

  lemma {:induction false} ItemHasNoProblem(c: Context, items: seq<Json>, depth: nat, i: nat)
    requires ProblemInItems(c, items, depth) == None && i < |items|
    ensures Problem(c, items[i], depth + 1) == None
    decreases |items|
  {
    hide Problem;
    if i < |items| - 1 {
      ItemHasNoProblem(c, items[..|items| - 1], depth, i);
    }
  }

  lemma {:induction false} EntryHasNoProblem(c: Context, entries: seq<Member>, depth: nat, i: nat)
    requires ProblemInEntries(c, entries, depth) == None && i < |entries|
    ensures c.patterns.Find(entries[i].key) == [] && Problem(c, entries[i].item, depth + 1) == None
    decreases |entries|
  {
    hide Problem, Patterns.Find;
    if i < |entries| - 1 {
      EntryHasNoProblem(c, entries[..|entries| - 1], depth, i);
    }
  }

  /** Every tree the transform writes passes the literal scan and the comparison of trees. */
  ghost predicate OwnTreesPass(c: Context) {
    forall v :: WellFormed(v) && Problem(c, v, 0) == None ==> Accepts(c, v, Expected(c, v))
  }

  lemma CleanOutputsPass(c: Context)
    requires OutputsAreClean(c.patterns)
    ensures OwnTreesPass(c)
  {
    hide OutputsAreClean, Problem, Expected, Strings, WellFormed, Accepts, Patterns.Find;
    forall v | WellFormed(v) && Problem(c, v, 0) == None ensures Accepts(c, v, Expected(c, v)) {
      OwnOutputNeedsCleanStrings(c, v);
      forall s | s in Strings(c, Expected(c, v)) ensures c.patterns.Clean(s) {
        TransformedTreeIsClean(c, v, 0, s);
        c.patterns.FindsNothingIffNoMatch(s);
      }
    }
  }

  lemma PassingTextsAreClean(c: Context)
    requires OwnTreesPass(c) && Reach(c.patterns) <= MAX_STRING
    ensures ShortOutputsAreClean(c.patterns)
  {
    hide Reach, Patterns.Find, Patterns.Replace, Patterns.Clean;
    forall text | |text| <= Reach(c.patterns) ensures c.patterns.Clean(c.patterns.Replace(text).0) {
      var v := Str(text);
      assert Problem(c, v, 0) == None && WellFormed(v);
      assert c.patterns.Replace(text).0 in Strings(c, Expected(c, v));
      c.patterns.FindsNothingIffNoMatch(c.patterns.Replace(text).0);
    }
  }

  // ---------- For accepted policies ----------

  /** What the compiler registers for a policy it accepts. */
  lemma AcceptedPatterns(u: Unicode, digest: Digest, p: Policy)
    requires u.Lawful() && Refusal(u, digest, p.rules, p.protected) == None
    requires Registered(u, p.rules, Plan(digest, IdentitiesOf(p.rules)).value, p.patterns)
    ensures NonEmptyReplacements(p.patterns) && TiesSettled(p.patterns)
  {
    var reps := Plan(digest, IdentitiesOf(p.rules)).value;
    AcceptedRules(u, digest, p.rules, p.protected);
    PlanIsInjective(digest, IdentitiesOf(p.rules));
    forall text ensures KeyDetermines(HitSet(p.patterns.RawHits(text))) {
      KeySettlesHits(u, p.rules, reps, p.patterns, text);
    }
    forall q | q in AllPatterns(p.patterns) ensures q.replacement != "" {
      RegisteredIsRendered(u, digest, p, reps, q);
    }
  }

  lemma RegisteredIsRendered(u: Unicode, digest: Digest, p: Policy, reps: map<Identity, string>, q: Pattern)
    requires Registered(u, p.rules, reps, p.patterns) && FromDigest(digest, reps) && q in AllPatterns(p.patterns)
    ensures q.replacement != ""
  {
    var caseSensitive := q in p.patterns.cs;
    assert RegisteredForm(u, p.rules, reps, caseSensitive, q);
    var form :| TripleOf(u, p.rules, reps, caseSensitive, (form, q.replacement, q.ruleId));
    var r :| r in p.rules && r.Id() in reps && q.replacement == reps[r.Id()];
    var salt: nat :| reps[r.Id()] == Candidate(digest, r.Id(), salt);
    RenderIsNonEmpty(r.Id().dataType, digest(r.Id(), salt));
  }

  /** Exactly when every tree the transform writes under an accepted policy passes these two
      checks: when no text as short as the square of the longest literal has an output showing a
      pattern. */
  lemma OwnTreesPassIffShortOutputsClean(u: Unicode, digest: Digest, p: Policy, c: Context)
    requires u.Lawful() && Refusal(u, digest, p.rules, p.protected) == None
    requires Registered(u, p.rules, Plan(digest, IdentitiesOf(p.rules)).value, p.patterns)
    requires c.patterns == p.patterns
    ensures ShortOutputsAreClean(p.patterns) ==> OwnTreesPass(c)
    ensures Reach(p.patterns) <= MAX_STRING ==> (OwnTreesPass(c) <==> ShortOutputsAreClean(p.patterns))
  {
    hide *;
    AcceptedPatterns(u, digest, p);
    OutputsCleanIffShortOnesAre(p.patterns);
    if ShortOutputsAreClean(p.patterns) {
      CleanOutputsPass(c);
    }
    if OwnTreesPass(c) && Reach(p.patterns) <= MAX_STRING {
      PassingTextsAreClean(c);
    }
  }

  /** A check on pairs suffices: when no pattern overlaps a replacement, every tree the transform
      writes passes both. */
  lemma ApartPoliciesPass(u: Unicode, digest: Digest, p: Policy, c: Context)
    requires u.Lawful() && Refusal(u, digest, p.rules, p.protected) == None
    requires Registered(u, p.rules, Plan(digest, IdentitiesOf(p.rules)).value, p.patterns)
    requires c.patterns == p.patterns && Apart(p.patterns)
    ensures OwnTreesPass(c)
  {
    hide *;
    AcceptedPatterns(u, digest, p);
    ApartPoliciesHaveCleanOutputs(p.patterns);
    CleanOutputsPass(c);
  }
}
