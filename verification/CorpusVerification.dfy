/** Verification of a whole corpus of text and JSON files: no literal survives, every file is what
    the policy makes of its source, protected values keep their counts, and every subject found in
    the source shows its pseudonym in the output. */
module CorpusVerification {
  import opened Results
  import opened Text
  import opened Matching
  import opened Pseudonyms
  import opened Policy
  import opened JsonTransform

  // ---------- Counting ----------

  /** How often `w` occurs in `text`, from left to right and without overlapping itself. */
  function CountIn(w: string, text: string): nat
    requires w != ""
    decreases |text|
  {
    if |text| < |w| then 0
    else if text[..|w|] == w then 1 + CountIn(w, text[|w|..])
    else CountIn(w, text[1..])
  }

  method CountText(w: string, text: string) returns (n: nat)
    requires w != ""
    ensures n == CountIn(w, text)
  {
    n := 0;
    var i := 0;
    while i + |w| <= |text|
      invariant 0 <= i <= |text| && n + CountIn(w, text[i..]) == CountIn(w, text)
    {
      assert text[i..][..|w|] == text[i..i + |w|] && text[i..][|w|..] == text[i + |w|..] && text[i..][1..] == text[i + 1..];
      if text[i..i + |w|] == w {
        n := n + 1;
        i := i + |w|;
      } else {
        i := i + 1;
      }
    }
  }

  /** Occurrences of `w` at these offsets, one after the other and apart. */
  ghost predicate Packs(w: string, text: string, at: seq<nat>) {
    && (forall k :: 0 <= k < |at| ==> OccursAt(w, text, at[k]))
    && (forall k :: 0 < k < |at| ==> at[k - 1] + |w| <= at[k])
  }

  ghost function Later(at: seq<nat>, n: int): (r: seq<nat>)
    requires forall k :: 0 <= k < |at| ==> 0 <= at[k] + n
    ensures |r| == |at| && forall k :: 0 <= k < |at| ==> r[k] == at[k] + n
  {
    seq(|at|, k requires 0 <= k < |at| => at[k] + n)
  }

  lemma OccursFurther(w: string, text: string, n: nat, i: nat)
    requires n <= |text|
    ensures OccursAt(w, text[n..], i) <==> OccursAt(w, text, i + n)
  {
    if i + n + |w| <= |text| {
      assert text[n..][i..i + |w|] == text[i + n..i + n + |w|];
    }
  }

  lemma PacksLater(w: string, text: string, n: nat, at: seq<nat>)
    requires n <= |text| && Packs(w, text[n..], at)
    ensures Packs(w, text, Later(at, n))
  {
    forall k | 0 <= k < |at| ensures OccursAt(w, text, at[k] + n) {
      OccursFurther(w, text, n, at[k]);
    }
  }

  lemma PacksEarlier(w: string, text: string, n: nat, at: seq<nat>)
    requires n <= |text| && Packs(w, text, at) && forall k :: 0 <= k < |at| ==> n <= at[k]
    ensures Packs(w, text[n..], Later(at, -(n as int)))
  {
    forall k | 0 <= k < |at| ensures OccursAt(w, text[n..], at[k] - n) {
      OccursFurther(w, text, n, at[k] - n);
    }
  }

  lemma {:induction false} FirstIsLeast(w: string, text: string, at: seq<nat>, k: nat)
    requires Packs(w, text, at) && k < |at|
    ensures at[0] <= at[k] && (k > 0 ==> at[0] + |w| <= at[k])
  {
    if k > 0 {
      FirstIsLeast(w, text, at, k - 1);
    }
  }

  /** The count is attained by occurrences that do not overlap each other... */
  lemma {:induction false} CountIsAttained(w: string, text: string) returns (at: seq<nat>)
    requires w != ""
    ensures Packs(w, text, at) && |at| == CountIn(w, text)
    decreases |text|
  {
    hide OccursAt, Packs;
    if |text| < |w| {
      at := [];
      NoPacking(w, text);
    } else if text[..|w|] == w {
      var rest := CountIsAttained(w, text[|w|..]);
      PacksLater(w, text, |w|, rest);
      at := [0] + Later(rest, |w|);
      PackFirst(w, text, rest);
    } else {
      var rest := CountIsAttained(w, text[1..]);
      PacksLater(w, text, 1, rest);
      at := Later(rest, 1);
    }
  }

  lemma NoPacking(w: string, text: string)
    ensures Packs(w, text, [])
  {
  }

  lemma PackFirst(w: string, text: string, rest: seq<nat>)
    requires w <= text && Packs(w, text, Later(rest, |w|))
    ensures Packs(w, text, [0] + Later(rest, |w|))
  {
    assert text[0..|w|] == w;
  }

  /** ... and no list of such occurrences is longer: it is the largest number of them. */
  lemma {:induction false} CountIsLargest(w: string, text: string, at: seq<nat>)
    requires w != "" && Packs(w, text, at)
    ensures |at| <= CountIn(w, text)
    decreases |text|
  {
    hide Packs;
    if at != [] {
      FirstOccurs(w, text, at);
      forall k | 0 <= k < |at| ensures at[0] <= at[k] && (k > 0 ==> at[0] + |w| <= at[k]) {
        FirstIsLeast(w, text, at, k);
      }
      if text[..|w|] == w {
        TailPacks(w, text, at);
        PacksEarlier(w, text, |w|, at[1..]);
        CountIsLargest(w, text[|w|..], Later(at[1..], -|w|));
      } else {
        assert at[0] != 0;
        PacksEarlier(w, text, 1, at);
        CountIsLargest(w, text[1..], Later(at, -1));
      }
    }
  }

  lemma FirstOccurs(w: string, text: string, at: seq<nat>)
    requires Packs(w, text, at) && at != []
    ensures |w| <= |text| && (at[0] == 0 ==> text[..|w|] == w)
  {
    assert OccursAt(w, text, at[0]);
    assert at[0] == 0 ==> text[0..|w|] == text[..|w|];
  }

  lemma TailPacks(w: string, text: string, at: seq<nat>)
    requires Packs(w, text, at) && at != []
    ensures Packs(w, text, at[1..])
  {
    assert forall k :: 0 < k < |at[1..]| ==> at[1..][k - 1] == at[k] && at[1..][k] == at[k + 1];
  }

  /** The same over many texts, after normalization of either side. */
  function CountAll(u: Unicode, needle: string, texts: seq<string>): nat
    requires u.nfc(needle) != ""
  {
    if texts == [] then 0 else CountIn(u.nfc(needle), u.nfc(texts[0])) + CountAll(u, needle, texts[1..])
  }

  method Count(u: Unicode, needle: string, texts: seq<string>) returns (n: nat)
    requires u.nfc(needle) != ""
    ensures n == CountAll(u, needle, texts)
  {
    n := 0;
    for i := 0 to |texts|
      invariant n + CountAll(u, needle, texts[i..]) == CountAll(u, needle, texts)
    {
      assert texts[i..][1..] == texts[i + 1..];
      var here := CountText(u.nfc(needle), u.nfc(texts[i]));
      n := n + here;
    }
  }

  // ---------- Files ----------

  datatype File = TextFile(text: string) | JsonFile(tree: Json)

  datatype FileError = MalformedEncoding | Refused(error: JsonError)

  /** The texts that are searched in a file. */
  function Searchable(c: Context, f: File): seq<string> {
    match f case TextFile(text) => [text] case JsonFile(tree) => Strings(c, tree)
  }

  function SearchableAll(c: Context, corpus: seq<File>): seq<string> {
    if corpus == [] then [] else Searchable(c, corpus[0]) + SearchableAll(c, corpus[1..])
  }

  function FileProblem(c: Context, f: File): Option<FileError> {
    match f
    case TextFile(text) => if '\0' in text then Some(MalformedEncoding) else None
    case JsonFile(tree) => match Problem(c, tree, 0) case None => None case Some(e) => Some(Refused(e))
  }

  /** What the policy makes of a file. */
  function ExpectedFile(c: Context, f: File): File {
    match f
    case TextFile(text) => TextFile(c.patterns.Replace(text).0)
    case JsonFile(tree) => JsonFile(Expected(c, tree))
  }

  function ExpectedCorpus(c: Context, corpus: seq<File>): (r: seq<File>)
    ensures |r| == |corpus| && forall i :: 0 <= i < |corpus| ==> r[i] == ExpectedFile(c, corpus[i])
  {
    seq(|corpus|, i requires 0 <= i < |corpus| => ExpectedFile(c, corpus[i]))
  }

  method TransformFile(c: Context, f: File) returns (r: Result<File, FileError>)
    ensures r == match FileProblem(c, f) case Some(e) => Err(e) case None => Ok(ExpectedFile(c, f))
    ensures match f
      case TextFile(text) => r.Err? <==> '\0' in text
      case JsonFile(tree) =>
        && (r.Err? ==> r.error.Refused? && SomethingIsWrong(c, tree, 0, r.error.error))
        && (r.Ok? ==> forall e :: !SomethingIsWrong(c, tree, 0, e))
  {
    match f {
      case TextFile(text) =>
        if '\0' in text {
          return Err(MalformedEncoding);
        }
        return Ok(TextFile(c.patterns.Replace(text).0));
      case JsonFile(tree) =>
        var done := ReplaceJson(c, tree, 0);
        ProblemIffWrong(c, tree, 0);
        hide SomethingIsWrong;
        return match done case Err(e) => Err(Refused(e)) case Ok(d) => Ok(JsonFile(d.0));
    }
  }

  // ---------- The checks ----------

  /** No literal survives in the output file, and it is the expected one. */
  ghost predicate FileAccepted(c: Context, source: File, output: File) {
    match (source, output)
    case (TextFile(s), TextFile(t)) => c.patterns.Find(t) == [] && t == c.patterns.Replace(s).0
    case (JsonFile(v), JsonFile(w)) => Accepts(c, v, w)
    case _ => false
  }

  method VerifyFile(c: Context, source: File, output: File) returns (ok: bool)
    ensures ok <==> FileAccepted(c, source, output)
  {
    match (source, output) {
      case (TextFile(s), TextFile(t)) => ok := c.patterns.Find(t) == [] && t == c.patterns.Replace(s).0;
      case (JsonFile(v), JsonFile(w)) => ok := VerifyJson(c, v, w);
      case _ => ok := false;
    }
  }

  ghost predicate ProtectedKept(u: Unicode, protected: seq<string>, source: seq<string>, output: seq<string>)
    requires forall pv :: pv in protected ==> u.nfc(pv) != ""
  {
    forall pv :: pv in protected ==> CountAll(u, pv, source) == CountAll(u, pv, output)
  }

  /** A span of the rule is selected in one of the texts. */
  ghost predicate Present(ps: Patterns, ruleId: string, texts: seq<string>) {
    exists text, s :: text in texts && s in ps.Find(text) && s.ruleId == ruleId
  }

  method RulePresent(ps: Patterns, ruleId: string, texts: seq<string>) returns (present: bool)
    ensures present <==> Present(ps, ruleId, texts)
  {
    hide Patterns.Find;
    for i := 0 to |texts|
      invariant !Present(ps, ruleId, texts[..i])
    {
      var spans := ps.Find(texts[i]);
      assert texts[..i + 1] == texts[..i] + [texts[i]];
      for k := 0 to |spans|
        invariant forall s :: s in spans[..k] ==> s.ruleId != ruleId
      {
        if spans[k].ruleId == ruleId {
          assert texts[i] in texts && spans[k] in ps.Find(texts[i]);
          return true;
        }
      }
      assert spans[..|spans|] == spans;
    }
    assert texts[..|texts|] == texts;
    return false;
  }

  /** Every identity one of whose rules is found in the source shows its pseudonym. */
  ghost predicate SubjectsCovered(u: Unicode, rules: seq<Rule>, reps: map<Identity, string>, ps: Patterns,
                                  source: seq<string>, output: seq<string>)
    requires forall id :: id in reps ==> u.nfc(reps[id]) != ""
  {
    forall r :: r in rules && Present(ps, r.ruleId, source) ==> r.Id() in reps && CountAll(u, reps[r.Id()], output) >= 1
  }

  ghost predicate Verified(u: Unicode, p: Policy, reps: map<Identity, string>, c: Context, source: seq<File>, output: seq<File>)
    requires forall pv :: pv in p.protected ==> u.nfc(pv) != ""
    requires forall id :: id in reps ==> u.nfc(reps[id]) != ""
  {
    && |source| == |output|
    && (forall i :: 0 <= i < |source| ==> FileAccepted(c, source[i], output[i]))
    && ProtectedKept(u, p.protected, SearchableAll(c, source), SearchableAll(c, output))
    && SubjectsCovered(u, p.rules, reps, p.patterns, SearchableAll(c, source), SearchableAll(c, output))
  }

  /** Some identity of `ids` and of type `t` has pseudonym `w`. */
  ghost predicate Given(reps: map<Identity, string>, ids: set<Identity>, t: string, w: string)
    requires ids <= reps.Keys
  {
    exists id :: id in ids && id.dataType == t && reps[id] == w
  }

  /** No two identities of one type share a pseudonym. */
  method CheckDistinct(reps: map<Identity, string>) returns (ok: bool)
    ensures ok <==> DistinctPerType(reps)
  {
    var byType: map<string, set<string>> := map[];
    var todo := reps.Keys;
    ghost var done: set<Identity> := {};
    while todo != {}
      invariant todo + done == reps.Keys && todo !! done
      invariant forall t, w :: w in Used(byType, t) <==> Given(reps, done, t, w)
      invariant forall a, b :: a in done && b in done && a != b && a.dataType == b.dataType ==> reps[a] != reps[b]
    {
      var id :| id in todo;
      var seen := Used(byType, id.dataType);
      assert reps[id] in seen <==> Given(reps, done, id.dataType, reps[id]);
      if reps[id] in seen {
        return false;
      }
      ghost var byType0 := byType;
      byType := byType[id.dataType := seen + {reps[id]}];
      forall t, w ensures w in Used(byType, t) <==> Given(reps, done + {id}, t, w) {
        assert w in Used(byType0, t) <==> Given(reps, done, t, w);
        GivenOneMore(reps, done, id, t, w);
      }
      todo, done := todo - {id}, done + {id};
    }
    ok := true;
  }

  lemma GivenOneMore(reps: map<Identity, string>, ids: set<Identity>, id: Identity, t: string, w: string)
    requires ids <= reps.Keys && id in reps
    ensures Given(reps, ids + {id}, t, w) <==> Given(reps, ids, t, w) || (id.dataType == t && reps[id] == w)
  {
    if id.dataType == t && reps[id] == w {
      assert id in ids + {id};
    }
  }

  method VerifySubjects(u: Unicode, rules: seq<Rule>, reps: map<Identity, string>, ps: Patterns,
                        source: seq<string>, output: seq<string>) returns (ok: bool)
    requires forall id :: id in reps ==> u.nfc(reps[id]) != ""
    requires forall r :: r in rules ==> r.Id() in reps
    ensures ok <==> DistinctPerType(reps) && SubjectsCovered(u, rules, reps, ps, source, output)
  {
    hide DistinctPerType, Present, CountAll;
    var distinct := CheckDistinct(reps);
    if !distinct {
      return false;
    }
    var present: set<Identity> := {};
    for i := 0 to |rules|
      invariant forall id :: id in present <==> exists k :: 0 <= k < i && rules[k].Id() == id && Present(ps, rules[k].ruleId, source)
    {
      var here := RulePresent(ps, rules[i].ruleId, source);
      if here {
        present := present + {rules[i].Id()};
      }
    }
    var todo := present;
    while todo != {}
      invariant todo <= present
      invariant forall id :: id in present - todo ==> id in reps && CountAll(u, reps[id], output) >= 1
    {
      var id :| id in todo;
      var shown := Count(u, reps[id], output);
      if shown < 1 {
        return false;
      }
      todo := todo - {id};
    }
    ok := true;
  }

  /** What compilation guarantees about the plan the verifier recomputes. */
  ghost predicate PlanFits(u: Unicode, digest: Digest, p: Policy) {
    && Plan(digest, IdentitiesOf(p.rules)).Ok?
    && var reps := Plan(digest, IdentitiesOf(p.rules)).value;
       && DistinctPerType(reps)
       && (forall pv :: pv in p.protected ==> u.nfc(pv) != "")
       && (forall id :: id in reps ==> reps[id] != "" && u.nfc(reps[id]) != "")
       && (forall r :: r in p.rules ==> r.Id() in reps)
  }

  lemma PlanIsFit(u: Unicode, digest: Digest, p: Policy)
    requires u.Lawful() && Refusal(u, digest, p.rules, p.protected) == None
    ensures PlanFits(u, digest, p)
  {
    PlanCoversRules(digest, p.rules);
    PlanIsInjective(digest, IdentitiesOf(p.rules));
    hide Plan, Refusal, ConflictFree, OverlapFree, FirstRuleError;
    var reps := Plan(digest, IdentitiesOf(p.rules)).value;
    forall id | id in reps ensures reps[id] != "" && u.nfc(reps[id]) != "" {
      var salt: nat :| reps[id] == Candidate(digest, id, salt);
      RenderIsNonEmpty(id.dataType, digest(id, salt));
      assert u.LawfulOn(reps[id]);
    }
    forall pv | pv in p.protected ensures u.nfc(pv) != "" {
      assert u.LawfulOn(pv);
    }
  }

  /** All checks on a corpus under a compiled policy, whose plan is recomputed. */
  method VerifyCorpus(u: Unicode, digest: Digest, p: Policy, c: Context, source: seq<File>, output: seq<File>) returns (ok: bool)
    requires PlanFits(u, digest, p)
    ensures ok <==> Verified(u, p, Plan(digest, IdentitiesOf(p.rules)).value, c, source, output)
  {
    hide Plan, FileAccepted, SearchableAll, CountAll, SubjectsCovered, DistinctPerType;
    if |source| != |output| {
      return false;
    }
    for i := 0 to |source|
      invariant forall k :: 0 <= k < i ==> FileAccepted(c, source[k], output[k])
    {
      var accepted := VerifyFile(c, source[i], output[i]);
      if !accepted {
        return false;
      }
    }
    var before, after := SearchableAll(c, source), SearchableAll(c, output);
    for i := 0 to |p.protected|
      invariant forall k :: 0 <= k < i ==> CountAll(u, p.protected[k], before) == CountAll(u, p.protected[k], after)
    {
      var n := Count(u, p.protected[i], before);
      var m := Count(u, p.protected[i], after);
      if n != m {
        assert p.protected[i] in p.protected;
        return false;
      }
    }
    var plan := BuildReplacements(digest, IdentitiesOf(p.rules));
    ok := VerifySubjects(u, p.rules, plan.value, p.patterns, before, after);
  }
}
