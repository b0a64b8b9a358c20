/** When the verifier accepts every corpus the transform writes: exactly when the short texts and the
    numbers pass. Texts are taken whose normalization changes nothing, before and after. */
module CorpusGuarantees {
  import opened Results
  import opened Text
  import opened Selection
  import opened Replacement
  import opened Matching
  import opened Overlap
  import opened Pseudonyms
  import opened Policy
  import opened PolicyGuarantees
  import opened JsonTransform
  import opened OutputSafety
  import opened OutputGuarantees
  import opened CorpusVerification
  import opened CountSafety

  // ---------- The texts and the corpora in question ----------

  /** Normalization changes neither the text nor its output. */
  ghost predicate Plain(u: Unicode, ps: Patterns, text: string) {
    u.nfc(text) == text && u.nfc(ps.Replace(text).0) == ps.Replace(text).0
  }

  /** A text that can be the body of a text file or a string of a JSON file. */
  predicate Receivable(text: string) {
    '\0' !in text || |text| <= MAX_STRING
  }

  ghost predicate AllNormal(u: Unicode, texts: seq<string>) {
    forall t :: t in texts ==> u.nfc(t) == t
  }

  /** The transform takes the file, and normalization changes no text of it or of its output. */
  ghost predicate PlainFile(u: Unicode, c: Context, f: File) {
    && FileProblem(c, f) == None && (f.JsonFile? ==> WellFormed(f.tree))
    && AllNormal(u, Searchable(c, f)) && AllNormal(u, Searchable(c, ExpectedFile(c, f)))
  }

  /** No spelling of a number holds a NUL character. */
  ghost predicate PrintableSpellings(c: Context) {
    forall v, t :: t in c.tokens(v) ==> '\0' !in t
  }

  /** Every plain corpus the transform writes passes all checks of the verifier. */
  ghost predicate OwnCorporaVerified(u: Unicode, digest: Digest, p: Policy, c: Context)
    requires PlanFits(u, digest, p)
  {
    forall corpus :: (forall f :: f in corpus ==> PlainFile(u, c, f)) ==>
      Verified(u, p, Plan(digest, IdentitiesOf(p.rules)).value, c, corpus, ExpectedCorpus(c, corpus))
  }

  // ---------- The condition ----------

  ghost predicate ProtectedNonEmpty(u: Unicode, p: Policy) {
    forall pv :: pv in p.protected ==> u.nfc(pv) != ""
  }

  ghost predicate CountsStay(u: Unicode, p: Policy, text: string)
    requires ProtectedNonEmpty(u, p)
  {
    forall pv :: pv in p.protected ==> CountIn(u.nfc(pv), text) == CountIn(u.nfc(pv), p.patterns.Replace(text).0)
  }

  /** The output shows no pattern, and every protected value as often as the text does. */
  ghost predicate TextPasses(u: Unicode, p: Policy, text: string)
    requires ProtectedNonEmpty(u, p)
  {
    p.patterns.Clean(p.patterns.Replace(text).0) && CountsStay(u, p, text)
  }

  ghost predicate AllTextsPass(u: Unicode, p: Policy)
    requires ProtectedNonEmpty(u, p)
  {
    forall text :: Receivable(text) && Plain(u, p.patterns, text) ==> TextPasses(u, p, text)
  }

  /** The same for finitely many texts: shorter than the square of the longest literal for the
      scan, than its product with the protected value for the count. */
  ghost predicate ShortTextsPass(u: Unicode, p: Policy)
    requires ProtectedNonEmpty(u, p)
  {
    forall text :: Receivable(text) && Plain(u, p.patterns, text) ==>
      && (|text| <= Reach(p.patterns) ==> p.patterns.Clean(p.patterns.Replace(text).0))
      && forall pv :: pv in p.protected && |text| <= |u.nfc(pv)| * LongestLiteral(AllPatterns(p.patterns)) ==>
           CountIn(u.nfc(pv), text) == CountIn(u.nfc(pv), p.patterns.Replace(text).0)
  }

  /** The spelling that replaces a number, if any: the first one that replacement changes. */
  function FirstRewritten(c: Context, tokens: seq<string>): Option<string> {
    if tokens == [] then None
    else if c.patterns.Replace(tokens[0]).1 > 0 && c.patterns.Replace(tokens[0]).0 != tokens[0] then Some(tokens[0])
    else FirstRewritten(c, tokens[1..])
  }

  /** That spelling speaks for all spellings of the number: they show no further protected value,
      and every identity found in any of them shows its pseudonym in its output. */
  ghost predicate SpellingsAgree(u: Unicode, p: Policy, reps: map<Identity, string>, c: Context, v: Json)
    requires ProtectedNonEmpty(u, p) && forall id :: id in reps ==> u.nfc(reps[id]) != ""
  {
    match FirstRewritten(c, c.tokens(v))
    case None => true
    case Some(t) =>
      && (forall pv :: pv in p.protected ==> CountAll(u, pv, c.tokens(v)) == CountIn(u.nfc(pv), t))
      && (forall r :: r in p.rules && Present(p.patterns, r.ruleId, c.tokens(v)) ==>
            r.Id() in reps && CountAll(u, reps[r.Id()], [c.patterns.Replace(t).0]) >= 1)
  }

  ghost predicate NumbersPass(u: Unicode, p: Policy, reps: map<Identity, string>, c: Context)
    requires ProtectedNonEmpty(u, p) && forall id :: id in reps ==> u.nfc(reps[id]) != ""
  {
    forall v :: IsNumber(v) && PlainFile(u, c, JsonFile(v)) ==> SpellingsAgree(u, p, reps, c, v)
  }

  // ---------- Short texts decide about all texts ----------

  /** The normalized protected values, which are what is counted. */
  function Probes(u: Unicode, protected: seq<string>): seq<string> {
    seq(|protected|, i requires 0 <= i < |protected| => u.nfc(protected[i]))
  }

  /** A slice of a plain text whose output is a slice of its output is plain as well. */
  lemma SliceIsPlain(u: Unicode, ps: Patterns, text: string, a: nat, b: nat, e: nat)
    requires u.SlicesStay() && Plain(u, ps, text) && Receivable(text) && a <= b <= |text|
    requires var output, inner := ps.Replace(text).0, ps.Replace(text[a..b]).0;
      e + |inner| <= |output| && inner == output[e..e + |inner|]
    ensures Plain(u, ps, text[a..b]) && Receivable(text[a..b])
  {
    hide Patterns.Replace;
    assert u.nfc(ps.Replace(text).0[e..e + |ps.Replace(text[a..b]).0|]) == ps.Replace(text[a..b]).0;
  }

  lemma CleanFromShort(u: Unicode, p: Policy, text: string)
    requires u.SlicesStay() && ProtectedNonEmpty(u, p) && NonEmptyReplacements(p.patterns) && TiesSettled(p.patterns)
    requires ShortTextsPass(u, p) && Receivable(text) && Plain(u, p.patterns, text)
    ensures p.patterns.Clean(p.patterns.Replace(text).0)
  {
    var ps := p.patterns;
    hide TiesSettled, NonEmptyReplacements, Patterns.Replace, Plain, Receivable, Reach, LongestLiteral, CountIn,
         Patterns.Matches;
    forall h ensures !ps.Matches(ps.Replace(text).0, h) {
      if ps.Matches(ps.Replace(text).0, h) {
        var a, b, e := ShortWitness(ps, text, h);
        SliceIsPlain(u, ps, text, a, b, e);
      }
    }
  }

  lemma CountsFromShort(u: Unicode, p: Policy, text: string, pv: string)
    requires u.SlicesStay() && ProtectedNonEmpty(u, p) && NonEmptyReplacements(p.patterns) && TiesSettled(p.patterns)
    requires ShortTextsPass(u, p) && Receivable(text) && Plain(u, p.patterns, text)
    requires pv in p.protected && NeverTouched(p.patterns, u.nfc(pv))
    ensures CountIn(u.nfc(pv), text) == CountIn(u.nfc(pv), p.patterns.Replace(text).0)
  {
    var ps, w := p.patterns, u.nfc(pv);
    hide TiesSettled, NonEmptyReplacements, NeverTouched, Patterns.Replace, Plain, Receivable, Reach,
         LongestLiteral, CountIn, Patterns.Clean;
    if CountIn(w, text) != CountIn(w, ps.Replace(text).0) {
      var a, b, e := CountWitness(ps, w, text);
      SliceIsPlain(u, ps, text, a, b, e);
    }
  }

  lemma TextsPassIffShortOnesDo(u: Unicode, p: Policy)
    requires u.SlicesStay() && ProtectedNonEmpty(u, p) && NonEmptyReplacements(p.patterns) && TiesSettled(p.patterns)
    requires forall pv :: pv in p.protected ==> NeverTouched(p.patterns, u.nfc(pv))
    ensures AllTextsPass(u, p) <==> ShortTextsPass(u, p)
  {
    hide Unicode.SlicesStay, TiesSettled, NonEmptyReplacements, NeverTouched, Patterns.Replace, Plain,
         Receivable, CountIn;
    hide Patterns.Clean, Reach, LongestLiteral;
    if ShortTextsPass(u, p) {
      forall text | Receivable(text) && Plain(u, p.patterns, text) ensures TextPasses(u, p, text) {
        CleanFromShort(u, p, text);
        forall pv | pv in p.protected ensures CountIn(u.nfc(pv), text) == CountIn(u.nfc(pv), p.patterns.Replace(text).0) {
          CountsFromShort(u, p, text, pv);
        }
      }
    }
    if AllTextsPass(u, p) {
      forall text | Receivable(text) && Plain(u, p.patterns, text) ensures TextPasses(u, p, text) {
      }
    }
  }

  // ---------- From texts to trees and files ----------

  lemma {:induction false} CountAllConcat(u: Unicode, needle: string, xs: seq<string>, ys: seq<string>)
    requires u.nfc(needle) != ""
    ensures CountAll(u, needle, xs + ys) == CountAll(u, needle, xs) + CountAll(u, needle, ys)
  {
    hide CountIn;
    if xs == [] {
      assert xs + ys == ys;
    } else {
      assert (xs + ys)[1..] == xs[1..] + ys;
      CountAllConcat(u, needle, xs[1..], ys);
    }
  }

  lemma {:induction false} CountedSomewhere(u: Unicode, needle: string, texts: seq<string>, t: string)
    requires u.nfc(needle) != "" && t in texts && CountIn(u.nfc(needle), u.nfc(t)) >= 1
    ensures CountAll(u, needle, texts) >= 1
  {
    hide CountIn;
    if t != texts[0] {
      CountedSomewhere(u, needle, texts[1..], t);
    }
  }

  lemma {:induction false} FirstRewrittenReplaces(c: Context, tokens: seq<string>)
    ensures match FirstRewritten(c, tokens)
      case None => NumberReplacement(c, tokens) == None
                   && forall t :: t in tokens ==> c.patterns.Replace(t).1 == 0 || c.patterns.Replace(t).0 == t
      case Some(t) => t in tokens && NumberReplacement(c, tokens) == Some(c.patterns.Replace(t))
  {
    hide Patterns.Replace;
    if tokens != [] {
      FirstRewrittenReplaces(c, tokens[1..]);
    }
  }

  /** What a number becomes, by its spellings. */
  lemma NumberStrings(c: Context, v: Json)
    requires IsNumber(v)
    ensures Strings(c, v) == c.tokens(v)
    ensures match FirstRewritten(c, c.tokens(v))
      case None => Strings(c, ExpectedNumber(c, v)) == c.tokens(v)
                   && forall t :: t in c.tokens(v) ==> c.patterns.Replace(t).0 == t
      case Some(t) => t in c.tokens(v) && Strings(c, ExpectedNumber(c, v)) == [c.patterns.Replace(t).0]
  {
    FirstRewrittenReplaces(c, c.tokens(v));
    hide Patterns.Replace;
    forall t | t in c.tokens(v) && c.patterns.Replace(t).1 == 0 ensures c.patterns.Replace(t).0 == t {
      c.patterns.FindsNothingIffNoMatch(t);
    }
  }

  /** All strings of a tree or of its output are normal and can be received. */
  ghost predicate PlainTree(u: Unicode, c: Context, v: Json) {
    && AllNormal(u, Strings(c, v)) && AllNormal(u, Strings(c, Expected(c, v)))
    && forall t :: t in Strings(c, v) ==> Receivable(t)
  }

  lemma PlainItem(u: Unicode, c: Context, items: seq<Json>)
    requires PlainTree(u, c, List(items)) && items != []
    ensures PlainTree(u, c, items[0]) && PlainTree(u, c, List(items[1..]))
    ensures ExpectedItems(c, items)[1..] == ExpectedItems(c, items[1..]) && ExpectedItems(c, items)[0] == Expected(c, items[0])
  {
    hide Receivable;
    assert ExpectedItems(c, items)[1..] == ExpectedItems(c, items[1..]);
    assert Strings(c, List(items)) == Strings(c, items[0]) + Strings(c, List(items[1..]));
    assert Strings(c, Expected(c, List(items))) == Strings(c, Expected(c, items[0])) + Strings(c, Expected(c, List(items[1..])));
  }

  lemma PlainEntry(u: Unicode, c: Context, entries: seq<Member>)
    requires PlainTree(u, c, Obj(entries)) && entries != []
    ensures PlainTree(u, c, entries[0].item) && PlainTree(u, c, Obj(entries[1..]))
    ensures var out := ExpectedEntries(c, entries);
      out[1..] == ExpectedEntries(c, entries[1..]) && out[0] == Member(entries[0].key, Expected(c, entries[0].item))
  {
    hide Receivable;
    assert ExpectedEntries(c, entries)[1..] == ExpectedEntries(c, entries[1..]);
    assert Strings(c, Obj(entries)) == [entries[0].key] + Strings(c, entries[0].item) + Strings(c, Obj(entries[1..]));
    assert Strings(c, Expected(c, Obj(entries)))
        == [entries[0].key] + Strings(c, Expected(c, entries[0].item)) + Strings(c, Expected(c, Obj(entries[1..])));
  }

  /** All texts and all numbers pass. */
  ghost predicate AllPass(u: Unicode, p: Policy, reps: map<Identity, string>, c: Context) {
    && ProtectedNonEmpty(u, p) && (forall id :: id in reps ==> u.nfc(reps[id]) != "")
    && AllTextsPass(u, p) && NumbersPass(u, p, reps, c) && c.patterns == p.patterns
  }

  lemma NumberIsPlain(u: Unicode, c: Context, v: Json, depth: nat)
    requires IsNumber(v) && Problem(c, v, depth) == None && PlainTree(u, c, v)
    ensures PlainFile(u, c, JsonFile(v))
  {
    hide Receivable, NumberProblem;
  }

  lemma OneText(u: Unicode, needle: string, t: string)
    requires u.nfc(needle) != ""
    ensures CountAll(u, needle, [t]) == CountIn(u.nfc(needle), u.nfc(t))
  {
    hide CountIn;
    assert [t][1..] == [];
  }

  lemma TextCounts(u: Unicode, p: Policy, reps: map<Identity, string>, c: Context, t: string, pv: string)
    requires AllPass(u, p, reps, c) && Plain(u, p.patterns, t) && Receivable(t) && pv in p.protected && u.nfc(pv) != ""
    ensures CountIn(u.nfc(pv), t) == CountAll(u, pv, [t]) == CountAll(u, pv, [c.patterns.Replace(t).0])
  {
    hide Patterns.Replace, CountIn, Receivable, Patterns.Clean, NumbersPass, CountAll;
    assert TextPasses(u, p, t);
    OneText(u, pv, t);
    OneText(u, pv, c.patterns.Replace(t).0);
  }

  lemma NumberCounts(u: Unicode, p: Policy, reps: map<Identity, string>, c: Context, v: Json, depth: nat, pv: string)
    requires AllPass(u, p, reps, c) && pv in p.protected && u.nfc(pv) != ""
    requires IsNumber(v) && Problem(c, v, depth) == None && PlainTree(u, c, v)
    ensures CountAll(u, pv, Strings(c, v)) == CountAll(u, pv, Strings(c, Expected(c, v)))
  {
    NumberStrings(c, v);
    NumberIsPlain(u, c, v, depth);
    assert SpellingsAgree(u, p, reps, c, v);
    hide Patterns.Replace, CountIn, CountAll, Receivable, FirstRewritten, AllPass, NumbersPass, Problem;
    match FirstRewritten(c, c.tokens(v)) {
      case None =>
      case Some(t) =>
        assert c.patterns.Replace(t).0 in Strings(c, Expected(c, v));
        TextCounts(u, p, reps, c, t, pv);
    }
  }

  /** Protected values keep their counts in a tree. */
  lemma {:induction false} TreeCounts(u: Unicode, p: Policy, reps: map<Identity, string>, c: Context, v: Json, depth: nat, pv: string)
    requires AllPass(u, p, reps, c) && pv in p.protected && u.nfc(pv) != ""
    requires Problem(c, v, depth) == None && PlainTree(u, c, v)
    ensures CountAll(u, pv, Strings(c, v)) == CountAll(u, pv, Strings(c, Expected(c, v)))
    decreases v, 1, 0
  {
    hide AllPass, CountAll, Patterns.Replace, Receivable, NumberProblem;
    match v {
      case Str(t) =>
        assert t in Strings(c, v) && c.patterns.Replace(t).0 in Strings(c, Expected(c, v));
        SamePatterns(u, p, reps, c);
        TextCounts(u, p, reps, c, t, pv);
      case Int(_) => NumberCounts(u, p, reps, c, v, depth, pv);
      case Float(_, _) => NumberCounts(u, p, reps, c, v, depth, pv);
      case List(items) =>
        forall x | x in items ensures Problem(c, x, depth + 1) == None {
          var i :| 0 <= i < |items| && items[i] == x;
          ItemHasNoProblem(c, items, depth, i);
        }
        ItemCounts(u, p, reps, c, v, items, depth, pv);
      case Obj(entries) =>
        forall e | e in entries ensures Problem(c, e.item, depth + 1) == None {
          var i :| 0 <= i < |entries| && entries[i] == e;
          EntryHasNoProblem(c, entries, depth, i);
        }
        EntryCounts(u, p, reps, c, v, entries, depth, pv);
      case _ =>
    }
  }

  lemma SamePatterns(u: Unicode, p: Policy, reps: map<Identity, string>, c: Context)
    requires AllPass(u, p, reps, c)
    ensures c.patterns == p.patterns
  {
    hide AllTextsPass, NumbersPass;
  }

  lemma {:induction false} ItemCounts(u: Unicode, p: Policy, reps: map<Identity, string>, c: Context, v: Json, items: seq<Json>,
                                      depth: nat, pv: string)
    requires AllPass(u, p, reps, c) && pv in p.protected && u.nfc(pv) != "" && PlainTree(u, c, List(items))
    requires forall x :: x in items ==> x < v && Problem(c, x, depth + 1) == None
    ensures CountAll(u, pv, Strings(c, List(items))) == CountAll(u, pv, Strings(c, Expected(c, List(items))))
    decreases v, 0, |items|
  {
    hide AllPass, Problem, PlainTree, CountAll, Patterns.Replace;
    if items != [] {
      assert items[0] in items && forall x :: x in items[1..] ==> x in items;
      PlainItem(u, c, items);
      TreeCounts(u, p, reps, c, items[0], depth + 1, pv);
      ItemCounts(u, p, reps, c, v, items[1..], depth, pv);
      CountAllConcat(u, pv, Strings(c, items[0]), StringsOfItems(c, items[1..]));
      CountAllConcat(u, pv, Strings(c, Expected(c, items[0])), StringsOfItems(c, ExpectedItems(c, items[1..])));
    }
  }

  lemma {:induction false} EntryCounts(u: Unicode, p: Policy, reps: map<Identity, string>, c: Context, v: Json,
                                       entries: seq<Member>, depth: nat, pv: string)
    requires AllPass(u, p, reps, c) && pv in p.protected && u.nfc(pv) != "" && PlainTree(u, c, Obj(entries))
    requires forall e :: e in entries ==> e.item < v && Problem(c, e.item, depth + 1) == None
    ensures CountAll(u, pv, Strings(c, Obj(entries))) == CountAll(u, pv, Strings(c, Expected(c, Obj(entries))))
    decreases v, 0, |entries|
  {
    hide AllPass, Problem, PlainTree, CountAll, Patterns.Replace;
    if entries != [] {
      var e := entries[0];
      assert e in entries && forall x :: x in entries[1..] ==> x in entries;
      PlainEntry(u, c, entries);
      TreeCounts(u, p, reps, c, e.item, depth + 1, pv);
      EntryCounts(u, p, reps, c, v, entries[1..], depth, pv);
      CountAllConcat(u, pv, [e.key], Strings(c, e.item));
      CountAllConcat(u, pv, [e.key], Strings(c, Expected(c, e.item)));
      CountAllConcat(u, pv, [e.key] + Strings(c, e.item), StringsOfEntries(c, entries[1..]));
      CountAllConcat(u, pv, [e.key] + Strings(c, Expected(c, e.item)), StringsOfEntries(c, ExpectedEntries(c, entries[1..])));
    }
  }

  // ---------- Every string of the output comes from one of the source ----------

  /** Each output string is the output of a source string, and each source string in which a span
      is found either has its output among the output strings or is a dropped spelling. */
  lemma {:induction false} OutputComesFrom(c: Context, v: Json, depth: nat, s: string) returns (t: string)
    requires Problem(c, v, depth) == None && s in Strings(c, Expected(c, v))
    ensures t in Strings(c, v) && s == c.patterns.Replace(t).0
    decreases v
  {
    hide Patterns.Find, Patterns.Replace, NumberProblem;
    match v {
      case Str(text) => t := text;
      case Int(_) => t := NumberComesFrom(c, v, s);
      case Float(_, _) => t := NumberComesFrom(c, v, s);
      case List(items) =>
        var i := StringOfItem(c, ExpectedItems(c, items), s);
        ItemHasNoProblem(c, items, depth, i);
        t := OutputComesFrom(c, items[i], depth + 1, s);
        ItemStrings(c, items, i, t);
      case Obj(entries) =>
        var i := StringOfEntry(c, ExpectedEntries(c, entries), s);
        EntryHasNoProblem(c, entries, depth, i);
        if s == entries[i].key {
          t := s;
          c.patterns.FindsNothingIffNoMatch(s);
        } else {
          assert entries[i] in entries;
          t := OutputComesFrom(c, entries[i].item, depth + 1, s);
        }
        EntryStrings(c, entries, i, t);
      case _ =>
    }
  }

  lemma NumberComesFrom(c: Context, v: Json, s: string) returns (t: string)
    requires IsNumber(v) && s in Strings(c, ExpectedNumber(c, v))
    ensures t in Strings(c, v) && s == c.patterns.Replace(t).0
  {
    NumberStrings(c, v);
    hide Patterns.Replace;
    t := match FirstRewritten(c, c.tokens(v)) case None => s case Some(first) => first;
  }

  lemma {:induction false} ItemStrings(c: Context, items: seq<Json>, i: nat, t: string)
    requires i < |items| && t in Strings(c, items[i])
    ensures t in StringsOfItems(c, items)
  {
    hide Strings;
    if i > 0 {
      ItemStrings(c, items[1..], i - 1, t);
    }
  }

  lemma {:induction false} EntryStrings(c: Context, entries: seq<Member>, i: nat, t: string)
    requires i < |entries| && (t == entries[i].key || t in Strings(c, entries[i].item))
    ensures t in StringsOfEntries(c, entries)
  {
    hide Strings;
    if i > 0 {
      EntryStrings(c, entries[1..], i - 1, t);
    }
  }

  // ---------- Subjects ----------

  /** A pseudonym occurs in one of the texts. */
  ghost predicate Shown(u: Unicode, w: string, texts: seq<string>)
    requires u.nfc(w) != ""
  {
    exists t :: t in texts && CountIn(u.nfc(w), u.nfc(t)) >= 1
  }

  /** The output of a plain text shows the pseudonym of every span found in it. */
  lemma SpanIsShown(u: Unicode, ps: Patterns, t: string, s: Span)
    requires u.SlicesStay() && Plain(u, ps, t) && s in ps.Find(t) && s.replacement != ""
    ensures u.nfc(s.replacement) == s.replacement
    ensures CountIn(s.replacement, ps.Replace(t).0) >= 1
  {
    var k :| 0 <= k < |ps.Find(t)| && ps.Find(t)[k] == s;
    ps.FoundTextIsReplaced(t, k);
    hide Patterns.Find, Patterns.Replace, Shift, CountIn, Unicode.SlicesStay;
    var at := s.start + Shift(ps.Find(t), s.start);
    assert ps.Replace(t).0[at..at + |s.replacement|] == s.replacement;
    SliceIsNormal(u, ps.Replace(t).0, at, at + |s.replacement|);
    SomethingToCount(s.replacement, ps.Replace(t).0, at);
  }

  lemma {:induction false} TreeShows(u: Unicode, p: Policy, reps: map<Identity, string>, c: Context, v: Json, depth: nat,
                                     r: Rule, t: string, s: Span)
    requires u.SlicesStay() && AllPass(u, p, reps, c) && Problem(c, v, depth) == None && PlainTree(u, c, v)
    requires r in p.rules && r.Id() in reps && s.replacement == reps[r.Id()] != "" && s.ruleId == r.ruleId
    requires t in Strings(c, v) && s in c.patterns.Find(t) && u.nfc(reps[r.Id()]) != ""
    ensures Shown(u, reps[r.Id()], Strings(c, Expected(c, v)))
    decreases v, 1
  {
    hide AllPass, Patterns.Find, Patterns.Replace, Receivable, NumberProblem, CountIn, Unicode.SlicesStay;
    match v {
      case Str(text) =>
        assert c.patterns.Replace(t).0 in Strings(c, Expected(c, v));
        SpanIsShown(u, c.patterns, t, s);
      case Int(_) => NumberShows(u, p, reps, c, v, depth, r, t, s);
      case Float(_, _) => NumberShows(u, p, reps, c, v, depth, r, t, s);
      case List(items) =>
        var i := StringOfItem(c, items, t);
        ItemHasNoProblem(c, items, depth, i);
        PlainAt(u, c, items, i);
        TreeShows(u, p, reps, c, items[i], depth + 1, r, t, s);
        ShownInItem(u, c, items, i, reps[r.Id()]);
      case Obj(entries) =>
        var i := StringOfEntry(c, entries, t);
        EntryHasNoProblem(c, entries, depth, i);
        assert entries[i] in entries;
        PlainAtEntry(u, c, entries, i);
        assert t != entries[i].key;
        TreeShows(u, p, reps, c, entries[i].item, depth + 1, r, t, s);
        ShownInEntry(u, c, entries, i, reps[r.Id()]);
      case _ =>
    }
  }

  lemma ShownInItem(u: Unicode, c: Context, items: seq<Json>, i: nat, w: string)
    requires u.nfc(w) != "" && i < |items| && Shown(u, w, Strings(c, Expected(c, items[i])))
    ensures Shown(u, w, Strings(c, Expected(c, List(items))))
  {
    hide CountIn;
    var o :| o in Strings(c, Expected(c, items[i])) && CountIn(u.nfc(w), u.nfc(o)) >= 1;
    ItemStrings(c, ExpectedItems(c, items), i, o);
  }

  lemma ShownInEntry(u: Unicode, c: Context, entries: seq<Member>, i: nat, w: string)
    requires u.nfc(w) != "" && i < |entries| && Shown(u, w, Strings(c, Expected(c, entries[i].item)))
    ensures Shown(u, w, Strings(c, Expected(c, Obj(entries))))
  {
    hide CountIn;
    var o :| o in Strings(c, Expected(c, entries[i].item)) && CountIn(u.nfc(w), u.nfc(o)) >= 1;
    EntryStrings(c, ExpectedEntries(c, entries), i, o);
  }

  lemma PlainAt(u: Unicode, c: Context, items: seq<Json>, i: nat)
    requires PlainTree(u, c, List(items)) && i < |items|
    ensures PlainTree(u, c, items[i])
  {
    hide Receivable;
    forall t | t in Strings(c, items[i]) ensures t in Strings(c, List(items)) {
      ItemStrings(c, items, i, t);
    }
    forall t | t in Strings(c, Expected(c, items[i])) ensures t in Strings(c, Expected(c, List(items))) {
      ItemStrings(c, ExpectedItems(c, items), i, t);
    }
  }

  lemma PlainAtEntry(u: Unicode, c: Context, entries: seq<Member>, i: nat)
    requires PlainTree(u, c, Obj(entries)) && i < |entries|
    ensures PlainTree(u, c, entries[i].item)
  {
    hide Receivable;
    forall t | t in Strings(c, entries[i].item) ensures t in Strings(c, Obj(entries)) {
      EntryStrings(c, entries, i, t);
    }
    forall t | t in Strings(c, Expected(c, entries[i].item)) ensures t in Strings(c, Expected(c, Obj(entries))) {
      EntryStrings(c, ExpectedEntries(c, entries), i, t);
    }
  }

  lemma NumberShows(u: Unicode, p: Policy, reps: map<Identity, string>, c: Context, v: Json, depth: nat, r: Rule, t: string, s: Span)
    requires u.SlicesStay() && AllPass(u, p, reps, c) && IsNumber(v) && Problem(c, v, depth) == None && PlainTree(u, c, v)
    requires r in p.rules && r.Id() in reps && s.replacement == reps[r.Id()] != "" && s.ruleId == r.ruleId
    requires t in Strings(c, v) && s in c.patterns.Find(t) && u.nfc(reps[r.Id()]) != ""
    ensures Shown(u, reps[r.Id()], Strings(c, Expected(c, v)))
  {
    NumberStrings(c, v);
    NumberIsPlain(u, c, v, depth);
    assert SpellingsAgree(u, p, reps, c, v);
    SamePatterns(u, p, reps, c);
    hide Patterns.Find, Patterns.Replace, CountIn, Receivable, FirstRewritten, AllPass, NumbersPass, Problem,
         Unicode.SlicesStay;
    match FirstRewritten(c, c.tokens(v)) {
      case None =>
        assert Plain(u, c.patterns, t);
        SpanIsShown(u, c.patterns, t, s);
      case Some(first) =>
        assert Present(p.patterns, r.ruleId, c.tokens(v));
        OneText(u, reps[r.Id()], c.patterns.Replace(first).0);
        assert c.patterns.Replace(first).0 in Strings(c, Expected(c, v));
    }
  }

  // ---------- Files and corpora ----------

  lemma {:induction false} StringIsReceivable(c: Context, v: Json, depth: nat, t: string)
    requires PrintableSpellings(c) && Problem(c, v, depth) == None && t in Strings(c, v)
    ensures Receivable(t)
    decreases v
  {
    hide Patterns.Find, NumberProblem;
    match v {
      case List(items) =>
        var i := StringOfItem(c, items, t);
        ItemHasNoProblem(c, items, depth, i);
        StringIsReceivable(c, items[i], depth + 1, t);
      case Obj(entries) =>
        var i := StringOfEntry(c, entries, t);
        EntryHasNoProblem(c, entries, depth, i);
        KeyIsShort(c, entries, depth, i);
        assert entries[i] in entries;
        if t != entries[i].key {
          StringIsReceivable(c, entries[i].item, depth + 1, t);
        }
      case _ =>
    }
  }

  lemma {:induction false} KeyIsShort(c: Context, entries: seq<Member>, depth: nat, i: nat)
    requires ProblemInEntries(c, entries, depth) == None && i < |entries|
    ensures |entries[i].key| <= MAX_STRING
    decreases |entries|
  {
    hide Problem, Patterns.Find;
    if i < |entries| - 1 {
      KeyIsShort(c, entries[..|entries| - 1], depth, i);
    }
  }

  lemma FileTreeIsPlain(u: Unicode, c: Context, v: Json)
    requires PrintableSpellings(c) && PlainFile(u, c, JsonFile(v))
    ensures PlainTree(u, c, v) && Problem(c, v, 0) == None && WellFormed(v)
  {
    hide Receivable, Strings, Problem, WellFormed, Expected, PrintableSpellings;
    forall t | t in Strings(c, v) ensures Receivable(t) {
      StringIsReceivable(c, v, 0, t);
    }
  }

  lemma FileCounts(u: Unicode, p: Policy, reps: map<Identity, string>, c: Context, f: File, pv: string)
    requires AllPass(u, p, reps, c) && PrintableSpellings(c) && PlainFile(u, c, f) && pv in p.protected && u.nfc(pv) != ""
    ensures CountAll(u, pv, Searchable(c, f)) == CountAll(u, pv, Searchable(c, ExpectedFile(c, f)))
  {
    SamePatterns(u, p, reps, c);
    hide AllPass, Patterns.Replace, CountAll, PrintableSpellings, Receivable, Strings, Problem, WellFormed, Expected;
    match f {
      case TextFile(t) =>
        assert t in Searchable(c, f) && c.patterns.Replace(t).0 in Searchable(c, ExpectedFile(c, f));
        TextFileIsReceivable(t);
        TextCounts(u, p, reps, c, t, pv);
      case JsonFile(v) =>
        FileTreeIsPlain(u, c, v);
        TreeCounts(u, p, reps, c, v, 0, pv);
    }
  }

  lemma TextFileIsReceivable(t: string)
    requires '\0' !in t
    ensures Receivable(t)
  {
  }

  lemma FileShows(u: Unicode, p: Policy, reps: map<Identity, string>, c: Context, f: File, r: Rule, t: string, s: Span)
    requires u.SlicesStay() && AllPass(u, p, reps, c) && PrintableSpellings(c) && PlainFile(u, c, f)
    requires r in p.rules && r.Id() in reps && s.replacement == reps[r.Id()] != "" && s.ruleId == r.ruleId
    requires t in Searchable(c, f) && s in c.patterns.Find(t) && u.nfc(reps[r.Id()]) != ""
    ensures Shown(u, reps[r.Id()], Searchable(c, ExpectedFile(c, f)))
  {
    hide AllPass, Patterns.Find, Patterns.Replace, PrintableSpellings, Receivable, Strings, Problem, WellFormed,
         Expected, CountIn;
    match f {
      case TextFile(_) =>
        assert c.patterns.Replace(t).0 in Searchable(c, ExpectedFile(c, f));
        SpanIsShown(u, c.patterns, t, s);
      case JsonFile(v) =>
        FileTreeIsPlain(u, c, v);
        TreeShows(u, p, reps, c, v, 0, r, t, s);
    }
  }

  /** The scan and the comparison of one file. */
  lemma FilePasses(u: Unicode, p: Policy, reps: map<Identity, string>, c: Context, f: File)
    requires AllPass(u, p, reps, c) && PrintableSpellings(c) && PlainFile(u, c, f)
    ensures FileAccepted(c, f, ExpectedFile(c, f))
  {
    SamePatterns(u, p, reps, c);
    hide AllPass, Patterns.Find, Patterns.Replace, PrintableSpellings, Receivable, Strings, Problem, WellFormed,
         Expected;
    match f {
      case TextFile(t) =>
        assert t in Searchable(c, f) && c.patterns.Replace(t).0 in Searchable(c, ExpectedFile(c, f));
        TextFileIsReceivable(t);
        PlainOutputIsClean(u, p, reps, c, t);
      case JsonFile(v) =>
        FileTreeIsPlain(u, c, v);
        OwnOutputNeedsCleanStrings(c, v);
        forall s | s in Strings(c, Expected(c, v)) ensures c.patterns.Clean(s) {
          var t := OutputComesFrom(c, v, 0, s);
          PlainOutputIsClean(u, p, reps, c, t);
          c.patterns.FindsNothingIffNoMatch(s);
        }
    }
  }

  lemma PlainOutputIsClean(u: Unicode, p: Policy, reps: map<Identity, string>, c: Context, t: string)
    requires AllPass(u, p, reps, c) && Receivable(t) && Plain(u, c.patterns, t)
    ensures c.patterns.Find(c.patterns.Replace(t).0) == []
  {
    SamePatterns(u, p, reps, c);
    hide NumbersPass, Receivable, Patterns.Find, Patterns.Replace, Patterns.Clean;
    assert TextPasses(u, p, t);
    c.patterns.FindsNothingIffNoMatch(c.patterns.Replace(t).0);
  }

  lemma {:induction false} CorpusCounts(u: Unicode, p: Policy, reps: map<Identity, string>, c: Context, corpus: seq<File>, pv: string)
    requires AllPass(u, p, reps, c) && PrintableSpellings(c) && pv in p.protected && u.nfc(pv) != ""
    requires forall f :: f in corpus ==> PlainFile(u, c, f)
    ensures CountAll(u, pv, SearchableAll(c, corpus)) == CountAll(u, pv, SearchableAll(c, ExpectedCorpus(c, corpus)))
  {
    hide AllPass, PrintableSpellings, PlainFile, CountAll, Searchable, ExpectedFile;
    if corpus != [] {
      var out := ExpectedCorpus(c, corpus);
      assert out[1..] == ExpectedCorpus(c, corpus[1..]) && out[0] == ExpectedFile(c, corpus[0]);
      assert corpus[0] in corpus;
      FileCounts(u, p, reps, c, corpus[0], pv);
      CorpusCounts(u, p, reps, c, corpus[1..], pv);
      CountAllConcat(u, pv, Searchable(c, corpus[0]), SearchableAll(c, corpus[1..]));
      CountAllConcat(u, pv, Searchable(c, out[0]), SearchableAll(c, out[1..]));
    }
  }

  lemma {:induction false} TextOfFile(c: Context, corpus: seq<File>, t: string) returns (i: nat)
    requires t in SearchableAll(c, corpus)
    ensures i < |corpus| && t in Searchable(c, corpus[i])
  {
    hide Searchable;
    i := 0;
    if t !in Searchable(c, corpus[0]) {
      i := TextOfFile(c, corpus[1..], t);
      i := i + 1;
    }
  }

  lemma {:induction false} FileText(c: Context, corpus: seq<File>, i: nat, t: string)
    requires i < |corpus| && t in Searchable(c, corpus[i])
    ensures t in SearchableAll(c, corpus)
  {
    hide Searchable;
    if i > 0 {
      FileText(c, corpus[1..], i - 1, t);
    }
  }

  lemma CorpusShows(u: Unicode, p: Policy, reps: map<Identity, string>, c: Context, corpus: seq<File>, r: Rule, t: string, s: Span)
    requires u.SlicesStay() && AllPass(u, p, reps, c) && PrintableSpellings(c) && forall f :: f in corpus ==> PlainFile(u, c, f)
    requires r in p.rules && r.Id() in reps && s.replacement == reps[r.Id()] != "" && s.ruleId == r.ruleId
    requires t in SearchableAll(c, corpus) && s in c.patterns.Find(t) && u.nfc(reps[r.Id()]) != ""
    ensures CountAll(u, reps[r.Id()], SearchableAll(c, ExpectedCorpus(c, corpus))) >= 1
  {
    hide AllPass, Patterns.Find, PrintableSpellings, PlainFile, Searchable, SearchableAll, ExpectedFile,
         CountAll, CountIn, Unicode.SlicesStay;
    var i := TextOfFile(c, corpus, t);
    FileShows(u, p, reps, c, corpus[i], r, t, s);
    var o :| o in Searchable(c, ExpectedFile(c, corpus[i])) && CountIn(u.nfc(reps[r.Id()]), u.nfc(o)) >= 1;
    FileText(c, ExpectedCorpus(c, corpus), i, o);
    CountedSomewhere(u, reps[r.Id()], SearchableAll(c, ExpectedCorpus(c, corpus)), o);
  }

  /** A span found under a compiled policy carries the pseudonym of the rule it names. */
  lemma SpanNamesRule(u: Unicode, p: Policy, reps: map<Identity, string>, text: string, s: Span, r: Rule)
    requires Registered(u, p.rules, reps, p.patterns) && s in p.patterns.Find(text) && r in p.rules && s.ruleId == r.ruleId
    requires forall i, j :: 0 <= i < j < |p.rules| ==> p.rules[i].ruleId != p.rules[j].ruleId
    ensures r.Id() in reps && s.replacement == reps[r.Id()]
  {
    p.patterns.FindIsWithin(text);
    MatchHasRule(u, p.rules, reps, p.patterns, text, s);
    hide Registered, MatchedBy, Patterns.Find;
    var r' :| r' in p.rules && r'.Id() in reps && s.replacement == reps[r'.Id()] && s.ruleId == r'.ruleId;
    var i :| 0 <= i < |p.rules| && p.rules[i] == r;
    var j :| 0 <= j < |p.rules| && p.rules[j] == r';
  }

  // ---------- The theorem ----------

  /** A compiled policy with what the transform consults. */
  ghost predicate Compiled(u: Unicode, digest: Digest, p: Policy, c: Context) {
    && u.Lawful() && u.SlicesStay() && Refusal(u, digest, p.rules, p.protected) == None
    && Registered(u, p.rules, Plan(digest, IdentitiesOf(p.rules)).value, p.patterns)
    && c.patterns == p.patterns && PrintableSpellings(c)
  }

  lemma CompiledFacts(u: Unicode, digest: Digest, p: Policy, c: Context)
    requires Compiled(u, digest, p, c)
    ensures PlanFits(u, digest, p) && ProtectedNonEmpty(u, p)
    ensures NonEmptyReplacements(p.patterns) && TiesSettled(p.patterns) && c.patterns == p.patterns
    ensures forall i, j :: 0 <= i < j < |p.rules| ==> p.rules[i].ruleId != p.rules[j].ruleId
  {
    PlanIsFit(u, digest, p);
    AcceptedPatterns(u, digest, p);
    AcceptedRules(u, digest, p.rules, p.protected);
    hide Plan, Refusal, Registered, NonEmptyReplacements, TiesSettled;
  }

  /** Protected values, normalized as they are counted, are clear of every registered form. */
  ghost predicate FormsClear(u: Unicode, p: Policy) {
    FormsOverlapFree(u, p.rules, Probes(u, p.protected))
  }

  lemma FormsClearMeansUntouched(u: Unicode, digest: Digest, p: Policy, c: Context)
    requires Compiled(u, digest, p, c) && FormsClear(u, p)
    ensures forall pv :: pv in p.protected ==> NeverTouched(p.patterns, u.nfc(pv))
  {
    CompiledFacts(u, digest, p, c);
    AcceptedRules(u, digest, p.rules, p.protected);
    var probes := Probes(u, p.protected);
    hide Plan, Refusal, NonEmptyReplacements, TiesSettled, FormsOverlapFree, Registered;
    assert "" !in probes;
    ProtectedUntouchedIffFormsOverlapFree(u, p.rules, probes, Plan(digest, IdentitiesOf(p.rules)).value, p.patterns);
    forall pv | pv in p.protected ensures NeverTouched(p.patterns, u.nfc(pv)) {
      var i :| 0 <= i < |p.protected| && p.protected[i] == pv;
      assert probes[i] in probes;
    }
  }

  /** If all texts and numbers pass, so does every corpus. */
  lemma PassingCorpusIsVerified(u: Unicode, digest: Digest, p: Policy, c: Context, corpus: seq<File>)
    requires Compiled(u, digest, p, c) && forall f :: f in corpus ==> PlainFile(u, c, f)
    requires Plan(digest, IdentitiesOf(p.rules)).Ok? && AllPass(u, p, Plan(digest, IdentitiesOf(p.rules)).value, c)
    ensures PlanFits(u, digest, p)
    ensures Verified(u, p, Plan(digest, IdentitiesOf(p.rules)).value, c, corpus, ExpectedCorpus(c, corpus))
  {
    var reps := Plan(digest, IdentitiesOf(p.rules)).value;
    hide *;
    CompiledFacts(u, digest, p, c);
    CompiledLaw(u, digest, p, c);
    CompiledRegistered(u, digest, p, c);
    var out := ExpectedCorpus(c, corpus);
    forall i | 0 <= i < |corpus| ensures FileAccepted(c, corpus[i], out[i]) {
      assert corpus[i] in corpus;
      FilePasses(u, p, reps, c, corpus[i]);
    }
    forall pv | pv in p.protected
      ensures u.nfc(pv) != "" && CountAll(u, pv, SearchableAll(c, corpus)) == CountAll(u, pv, SearchableAll(c, out))
    {
      SomeProtected(u, p, pv);
      CorpusCounts(u, p, reps, c, corpus, pv);
    }
    forall r | r in p.rules && Present(p.patterns, r.ruleId, SearchableAll(c, corpus))
      ensures r.Id() in reps && u.nfc(reps[r.Id()]) != "" && CountAll(u, reps[r.Id()], SearchableAll(c, out)) >= 1
    {
      var t, s := SomePresent(p.patterns, r.ruleId, SearchableAll(c, corpus));
      SpanNamesRule(u, p, reps, t, s, r);
      FitsHere(u, digest, p, r.Id());
      CorpusShows(u, p, reps, c, corpus, r, t, s);
    }
    ChecksMeanVerified(u, digest, p, c, corpus, out);
  }

  lemma SomePresent(ps: Patterns, ruleId: string, texts: seq<string>) returns (t: string, s: Span)
    requires Present(ps, ruleId, texts)
    ensures t in texts && s in ps.Find(t) && s.ruleId == ruleId
  {
    hide Patterns.Find;
    t, s :| t in texts && s in ps.Find(t) && s.ruleId == ruleId;
  }

  lemma ChecksMeanVerified(u: Unicode, digest: Digest, p: Policy, c: Context, corpus: seq<File>, out: seq<File>)
    requires PlanFits(u, digest, p) && |corpus| == |out|
    requires forall i :: 0 <= i < |corpus| ==> FileAccepted(c, corpus[i], out[i])
    requires forall pv :: pv in p.protected ==>
      u.nfc(pv) != "" && CountAll(u, pv, SearchableAll(c, corpus)) == CountAll(u, pv, SearchableAll(c, out))
    requires var reps := Plan(digest, IdentitiesOf(p.rules)).value;
      forall r :: r in p.rules && Present(p.patterns, r.ruleId, SearchableAll(c, corpus)) ==>
        r.Id() in reps && u.nfc(reps[r.Id()]) != "" && CountAll(u, reps[r.Id()], SearchableAll(c, out)) >= 1
    ensures Verified(u, p, Plan(digest, IdentitiesOf(p.rules)).value, c, corpus, out)
  {
    hide Plan, DistinctPerType, FileAccepted, CountAll, SearchableAll, Present;
  }

  /** What the checks say of a corpus of one file. */
  lemma VerifiedFile(u: Unicode, digest: Digest, p: Policy, c: Context, f: File)
    requires PlanFits(u, digest, p) && OwnCorporaVerified(u, digest, p, c) && PlainFile(u, c, f)
    ensures FileAccepted(c, f, ExpectedFile(c, f))
    ensures forall pv :: pv in p.protected ==>
      u.nfc(pv) != "" && CountAll(u, pv, Searchable(c, f)) == CountAll(u, pv, Searchable(c, ExpectedFile(c, f)))
    ensures forall r :: r in p.rules && Present(p.patterns, r.ruleId, Searchable(c, f)) ==>
      && r.Id() in Plan(digest, IdentitiesOf(p.rules)).value
      && u.nfc(Plan(digest, IdentitiesOf(p.rules)).value[r.Id()]) != ""
      && CountAll(u, Plan(digest, IdentitiesOf(p.rules)).value[r.Id()], Searchable(c, ExpectedFile(c, f))) >= 1
  {
    hide Plan, DistinctPerType, PlainFile, FileAccepted, CountAll, Searchable, ExpectedFile, Present, SearchableAll;
    OneFileCorpus(c, f);
    assert forall g :: g in [f] ==> PlainFile(u, c, g);
    assert Verified(u, p, Plan(digest, IdentitiesOf(p.rules)).value, c, [f], ExpectedCorpus(c, [f]));
    assert [f][0] == f;
  }

  lemma OneFileCorpus(c: Context, f: File)
    ensures ExpectedCorpus(c, [f]) == [ExpectedFile(c, f)]
    ensures SearchableAll(c, [f]) == Searchable(c, f) && SearchableAll(c, [ExpectedFile(c, f)]) == Searchable(c, ExpectedFile(c, f))
  {
    hide Searchable, ExpectedFile;
    assert [f][1..] == [] && [ExpectedFile(c, f)][1..] == [];
  }

  lemma VerifiedTextPasses(u: Unicode, digest: Digest, p: Policy, c: Context, text: string)
    requires PlanFits(u, digest, p) && OwnCorporaVerified(u, digest, p, c) && c.patterns == p.patterns
    requires Receivable(text) && Plain(u, p.patterns, text) && ProtectedNonEmpty(u, p)
    ensures TextPasses(u, p, text)
  {
    var f := if '\0' !in text then TextFile(text) else JsonFile(Str(text));
    hide PlanFits, OwnCorporaVerified, CountIn, CountAll, Patterns.Replace, Patterns.Find, Patterns.Clean;
    assert PlainFile(u, c, f);
    VerifiedFile(u, digest, p, c, f);
    assert Searchable(c, f) == [text] && Searchable(c, ExpectedFile(c, f)) == [p.patterns.Replace(text).0];
    AcceptedShowsNothing(c, f, text);
    forall pv | pv in p.protected ensures CountIn(u.nfc(pv), text) == CountIn(u.nfc(pv), p.patterns.Replace(text).0) {
      OneText(u, pv, text);
      OneText(u, pv, p.patterns.Replace(text).0);
    }
  }

  lemma AcceptedShowsNothing(c: Context, f: File, text: string)
    requires f == TextFile(text) || f == JsonFile(Str(text))
    requires FileAccepted(c, f, ExpectedFile(c, f))
    ensures c.patterns.Clean(c.patterns.Replace(text).0)
  {
    hide Patterns.Find, Patterns.Replace, Patterns.Clean;
    assert f.JsonFile? ==> c.patterns.Replace(text).0 in Strings(c, Expected(c, f.tree));
    c.patterns.FindsNothingIffNoMatch(c.patterns.Replace(text).0);
  }

  lemma VerifiedNumberPasses(u: Unicode, digest: Digest, p: Policy, c: Context, v: Json)
    requires PlanFits(u, digest, p) && OwnCorporaVerified(u, digest, p, c) && c.patterns == p.patterns && PrintableSpellings(c)
    requires ProtectedNonEmpty(u, p) && AllTextsPass(u, p) && IsNumber(v) && PlainFile(u, c, JsonFile(v))
    ensures SpellingsAgree(u, p, Plan(digest, IdentitiesOf(p.rules)).value, c, v)
  {
    hide *;
    VerifiedFile(u, digest, p, c, JsonFile(v));
    NumberFile(c, v);
    if FirstRewritten(c, c.tokens(v)).Some? {
      var t := FirstRewritten(c, c.tokens(v)).value;
      NumberRewritten(c, v, t);
      RewrittenIsPlain(u, c, v, t);
      SpellingIsReceivable(c, v, t);
      forall pv | pv in p.protected ensures CountAll(u, pv, c.tokens(v)) == CountIn(u.nfc(pv), t) {
        PassingCount(u, p, t, pv);
      }
      TheyAgree(u, digest, p, c, v, t);
    } else {
      NothingToAgree(u, digest, p, c, v);
    }
  }

  lemma NumberFile(c: Context, v: Json)
    requires IsNumber(v)
    ensures Searchable(c, JsonFile(v)) == c.tokens(v)
    ensures Searchable(c, ExpectedFile(c, JsonFile(v))) == Strings(c, ExpectedNumber(c, v))
  {
    hide ExpectedNumber;
  }

  lemma NumberRewritten(c: Context, v: Json, t: string)
    requires IsNumber(v) && FirstRewritten(c, c.tokens(v)) == Some(t)
    ensures t in c.tokens(v) && Strings(c, ExpectedNumber(c, v)) == [c.patterns.Replace(t).0]
  {
    NumberStrings(c, v);
  }

  lemma PassingCount(u: Unicode, p: Policy, t: string, pv: string)
    requires ProtectedNonEmpty(u, p) && AllTextsPass(u, p) && Receivable(t) && Plain(u, p.patterns, t) && pv in p.protected
    ensures u.nfc(pv) != "" && CountAll(u, pv, [p.patterns.Replace(t).0]) == CountIn(u.nfc(pv), t)
  {
    hide Patterns.Replace, CountIn, CountAll, Receivable, Patterns.Clean;
    assert TextPasses(u, p, t);
    OneText(u, pv, p.patterns.Replace(t).0);
  }

  lemma NothingToAgree(u: Unicode, digest: Digest, p: Policy, c: Context, v: Json)
    requires PlanFits(u, digest, p) && ProtectedNonEmpty(u, p) && FirstRewritten(c, c.tokens(v)).None?
    ensures SpellingsAgree(u, p, Plan(digest, IdentitiesOf(p.rules)).value, c, v)
  {
    hide Plan, DistinctPerType, CountAll, CountIn, FirstRewritten, Present, Patterns.Replace;
  }

  lemma SpellingIsReceivable(c: Context, v: Json, t: string)
    requires PrintableSpellings(c) && t in c.tokens(v)
    ensures Receivable(t)
  {
  }

  /** Exactly when the verifier accepts every plain corpus the transform writes under an accepted
      policy whose forms are clear of protected values: when the short texts pass, and for every
      number the spelling that replaces it speaks for the others. */
  lemma OwnCorporaVerifiedIffShortTextsPass(u: Unicode, digest: Digest, p: Policy, c: Context)
    requires Compiled(u, digest, p, c) && FormsClear(u, p)
    ensures PlanFits(u, digest, p) && ProtectedNonEmpty(u, p)
    ensures OwnCorporaVerified(u, digest, p, c)
       <==> ShortTextsPass(u, p) && NumbersPass(u, p, Plan(digest, IdentitiesOf(p.rules)).value, c)
  {
    CompiledFacts(u, digest, p, c);
    FormsClearMeansUntouched(u, digest, p, c);
    CompiledLaw(u, digest, p, c);
    TextsPassIffShortOnesDo(u, p);
    var reps := Plan(digest, IdentitiesOf(p.rules)).value;
    hide Compiled, FormsClear, Plan, NonEmptyReplacements, TiesSettled, ShortTextsPass, NeverTouched, Plain,
         Receivable, PlainFile, SpellingsAgree;
    hide TextPasses, Verified, Unicode.SlicesStay;
    if AllTextsPass(u, p) && NumbersPass(u, p, reps, c) {
      forall corpus: seq<File> | forall f :: f in corpus ==> PlainFile(u, c, f)
        ensures Verified(u, p, reps, c, corpus, ExpectedCorpus(c, corpus))
      {
        PassingCorpusIsVerified(u, digest, p, c, corpus);
      }
    }
    if OwnCorporaVerified(u, digest, p, c) {
      forall text | Receivable(text) && Plain(u, p.patterns, text) ensures TextPasses(u, p, text) {
        VerifiedTextPasses(u, digest, p, c, text);
      }
      assert AllTextsPass(u, p);
      forall v | IsNumber(v) && PlainFile(u, c, JsonFile(v)) ensures SpellingsAgree(u, p, reps, c, v) {
        VerifiedNumberPasses(u, digest, p, c, v);
      }
    }
  }

  lemma CompiledLaw(u: Unicode, digest: Digest, p: Policy, c: Context)
    requires Compiled(u, digest, p, c)
    ensures u.SlicesStay() && PrintableSpellings(c)
  {
    hide Plan, Refusal, Registered, Unicode.SlicesStay, PrintableSpellings;
  }

  // ---------- Simpler checks that suffice ----------

  /** No protected value can share a character with a replacement in any text. */
  predicate ReplacementsClear(u: Unicode, p: Policy) {
    forall pv, q :: pv in p.protected && q in AllPatterns(p.patterns) ==> !Overlaps(u.nfc(pv), q.replacement)
  }

  lemma ClearReplacementsKeepCounts(u: Unicode, p: Policy, text: string, pv: string)
    requires ProtectedNonEmpty(u, p) && NonEmptyReplacements(p.patterns) && TiesSettled(p.patterns)
    requires ReplacementsClear(u, p) && pv in p.protected && NeverTouched(p.patterns, u.nfc(pv))
    ensures CountIn(u.nfc(pv), text) == CountIn(u.nfc(pv), p.patterns.Replace(text).0)
  {
    var ps, w := p.patterns, u.nfc(pv);
    hide NonEmptyReplacements, TiesSettled, NeverTouched, Patterns.Replace, CountIn, Overlaps, LongestLiteral;
    if CountIn(w, text) != CountIn(w, ps.Replace(text).0) {
      var a, b, e := CountWitness(ps, w, text);
      var i := CountedAt(w, ps.Replace(text[a..b]).0);
      NewOccurrenceOverlaps(ps, w, text[a..b], i);
    }
  }

  lemma {:induction false} CountedAt(w: string, text: string) returns (i: nat)
    requires w != "" && CountIn(w, text) >= 1
    ensures OccursAt(w, text, i)
    decreases |text|
  {
    i := 0;
    if text[..|w|] != w {
      i := CountedAt(w, text[1..]);
      OccursLater(w, text, 1, i);
      i := i + 1;
    }
  }

  /** An output occurrence that the text does not have touches a replacement. */
  lemma NewOccurrenceOverlaps(ps: Patterns, w: string, text: string, i: nat)
    requires w != "" && OccursAt(w, ps.Replace(text).0, i) && CountIn(w, text) == 0
    ensures exists q :: q in AllPatterns(ps) && Overlaps(w, q.replacement)
  {
    hide *;
    ReplaceIsWeave(ps, text);
    OccursInside(w, ps.Replace(text).0, i);
    var o := WindowOrigin(text, ps.Find(text), 0, i, i + |w|);
    OriginOverlaps(ps, w, text, i, o);
  }

  lemma OccursInside(w: string, text: string, i: nat)
    requires OccursAt(w, text, i)
    ensures i + |w| <= |text|
  {
  }

  lemma OriginOverlaps(ps: Patterns, w: string, text: string, i: nat, o: Origin)
    requires w != "" && OccursAt(w, ps.Replace(text).0, i) && CountIn(w, text) == 0
    requires ComesFrom(text, ps.Find(text), 0, ps.Replace(text).0, i, i + |w|, o)
    ensures exists q :: q in AllPatterns(ps) && Overlaps(w, q.replacement)
  {
    hide Patterns.Find, Patterns.Replace, Patterns.Matches, CountIn, Overlaps, Untouched, AllPatterns;
    match o {
      case Replaced(k, at) =>
        var s := ps.Find(text)[k];
        FoundIsMatch(ps, text, s);
        var q := PatternOf(ps, text, s);
        MeetingOverlaps(w, q.replacement, ps.Replace(text).0, i, at);
      case Kept(at) =>
        SomethingToCount(w, text, at);
    }
  }

  lemma FoundIsMatch(ps: Patterns, text: string, s: Span)
    requires s in ps.Find(text)
    ensures ps.Matches(text, s)
  {
    ps.FindIsWithin(text);
  }

  /** A check on pairs suffices for texts: no pattern overlaps a replacement, and no protected value
      does. With numbers that pass, every plain corpus the transform writes is accepted. */
  lemma ClearPoliciesAreVerified(u: Unicode, digest: Digest, p: Policy, c: Context)
    requires Compiled(u, digest, p, c) && FormsClear(u, p) && Apart(p.patterns) && ReplacementsClear(u, p)
    ensures PlanFits(u, digest, p) && ProtectedNonEmpty(u, p)
    ensures AllTextsPass(u, p)
    ensures NumbersPass(u, p, Plan(digest, IdentitiesOf(p.rules)).value, c) ==> OwnCorporaVerified(u, digest, p, c)
  {
    CompiledFacts(u, digest, p, c);
    CompiledLaw(u, digest, p, c);
    FormsClearMeansUntouched(u, digest, p, c);
    OwnCorporaVerifiedIffShortTextsPass(u, digest, p, c);
    ApartPoliciesHaveCleanOutputs(p.patterns);
    TextsPassIffShortOnesDo(u, p);
    hide Compiled, FormsClear, Plan, NonEmptyReplacements, TiesSettled, ShortTextsPass, NeverTouched, Plain,
         Receivable, Apart;
    hide NumbersPass, OwnCorporaVerified, ReplacementsClear, Patterns.Clean, Patterns.Replace, CountIn,
         Unicode.SlicesStay;
    forall text ensures TextPasses(u, p, text) {
      assert p.patterns.Clean(p.patterns.Replace(text).0);
      forall pv | pv in p.protected ensures CountIn(u.nfc(pv), text) == CountIn(u.nfc(pv), p.patterns.Replace(text).0) {
        ClearReplacementsKeepCounts(u, p, text, pv);
      }
    }
  }

  /** A number passes when its other spellings show neither a pattern nor a protected value; in
      particular when it has one spelling, as every integer has. */
  lemma BareSpellingsAgree(u: Unicode, digest: Digest, p: Policy, c: Context, v: Json, k: nat)
    requires Compiled(u, digest, p, c) && PlanFits(u, digest, p) && ProtectedNonEmpty(u, p)
    requires IsNumber(v) && PlainFile(u, c, JsonFile(v)) && k < |c.tokens(v)| && FirstRewritten(c, c.tokens(v)) == Some(c.tokens(v)[k])
    requires forall i :: 0 <= i < |c.tokens(v)| && i != k ==> c.patterns.Find(c.tokens(v)[i]) == []
    requires forall i, pv :: 0 <= i < |c.tokens(v)| && i != k && pv in p.protected ==> CountIn(u.nfc(pv), c.tokens(v)[i]) == 0
    ensures SpellingsAgree(u, p, Plan(digest, IdentitiesOf(p.rules)).value, c, v)
  {
    var t, reps := c.tokens(v)[k], Plan(digest, IdentitiesOf(p.rules)).value;
    hide *;
    CompiledFacts(u, digest, p, c);
    CompiledLaw(u, digest, p, c);
    CompiledRegistered(u, digest, p, c);
    RewrittenIsPlain(u, c, v, t);
    forall pv | pv in p.protected ensures u.nfc(pv) != "" && CountAll(u, pv, c.tokens(v)) == CountIn(u.nfc(pv), t) {
      SomeProtected(u, p, pv);
      CountOnly(u, pv, c.tokens(v), k);
    }
    forall r | r in p.rules && Present(p.patterns, r.ruleId, c.tokens(v))
      ensures r.Id() in reps && u.nfc(reps[r.Id()]) != "" && CountAll(u, reps[r.Id()], [c.patterns.Replace(t).0]) >= 1
    {
      var s := PresentThere(c, v, k, r.ruleId);
      SpanNamesRule(u, p, reps, t, s, r);
      FitsHere(u, digest, p, r.Id());
      RewrittenShows(u, c, t, s);
    }
    TheyAgree(u, digest, p, c, v, t);
  }

  lemma SomeProtected(u: Unicode, p: Policy, pv: string)
    requires ProtectedNonEmpty(u, p) && pv in p.protected
    ensures u.nfc(pv) != ""
  {
  }

  lemma FitsHere(u: Unicode, digest: Digest, p: Policy, id: Identity)
    requires PlanFits(u, digest, p) && id in Plan(digest, IdentitiesOf(p.rules)).value
    ensures var w := Plan(digest, IdentitiesOf(p.rules)).value[id]; w != "" && u.nfc(w) != ""
  {
    hide Plan, DistinctPerType;
  }

  lemma RewrittenIsPlain(u: Unicode, c: Context, v: Json, t: string)
    requires IsNumber(v) && PlainFile(u, c, JsonFile(v)) && FirstRewritten(c, c.tokens(v)) == Some(t)
    ensures Plain(u, c.patterns, t) && forall i :: 0 <= i < |c.tokens(v)| ==> u.nfc(c.tokens(v)[i]) == c.tokens(v)[i]
  {
    NumberStrings(c, v);
    hide Patterns.Replace, FirstRewritten;
    assert t in Searchable(c, JsonFile(v)) && c.patterns.Replace(t).0 in Searchable(c, ExpectedFile(c, JsonFile(v)));
    assert forall i :: 0 <= i < |c.tokens(v)| ==> c.tokens(v)[i] in Searchable(c, JsonFile(v));
  }

  /** With no span in the others, a span is found in the one spelling. */
  lemma PresentThere(c: Context, v: Json, k: nat, ruleId: string) returns (s: Span)
    requires k < |c.tokens(v)| && Present(c.patterns, ruleId, c.tokens(v))
    requires forall i :: 0 <= i < |c.tokens(v)| && i != k ==> c.patterns.Find(c.tokens(v)[i]) == []
    ensures s in c.patterns.Find(c.tokens(v)[k]) && s.ruleId == ruleId
  {
    hide Patterns.Find;
    var text;
    text, s :| text in c.tokens(v) && s in c.patterns.Find(text) && s.ruleId == ruleId;
    var i :| 0 <= i < |c.tokens(v)| && c.tokens(v)[i] == text;
  }

  lemma RewrittenShows(u: Unicode, c: Context, t: string, s: Span)
    requires u.SlicesStay() && Plain(u, c.patterns, t) && s in c.patterns.Find(t) && s.replacement != "" && u.nfc(s.replacement) != ""
    ensures CountAll(u, s.replacement, [c.patterns.Replace(t).0]) >= 1
  {
    SpanIsShown(u, c.patterns, t, s);
    hide Patterns.Find, Patterns.Replace, CountIn, CountAll;
    OneText(u, s.replacement, c.patterns.Replace(t).0);
  }

  lemma TheyAgree(u: Unicode, digest: Digest, p: Policy, c: Context, v: Json, t: string)
    requires PlanFits(u, digest, p) && ProtectedNonEmpty(u, p) && FirstRewritten(c, c.tokens(v)) == Some(t)
    requires forall pv :: pv in p.protected ==> CountAll(u, pv, c.tokens(v)) == CountIn(u.nfc(pv), t)
    requires forall r :: r in p.rules && Present(p.patterns, r.ruleId, c.tokens(v)) ==>
      CountAll(u, Plan(digest, IdentitiesOf(p.rules)).value[r.Id()], [c.patterns.Replace(t).0]) >= 1
    ensures SpellingsAgree(u, p, Plan(digest, IdentitiesOf(p.rules)).value, c, v)
  {
    hide Plan, DistinctPerType, CountAll, CountIn, FirstRewritten, Present, Patterns.Replace;
  }

  lemma CompiledRegistered(u: Unicode, digest: Digest, p: Policy, c: Context)
    requires Compiled(u, digest, p, c)
    ensures Registered(u, p.rules, Plan(digest, IdentitiesOf(p.rules)).value, p.patterns)
  {
    hide Plan, Refusal, Registered, Unicode.SlicesStay, PrintableSpellings;
  }

  lemma {:induction false} CountOnly(u: Unicode, needle: string, texts: seq<string>, k: nat)
    requires u.nfc(needle) != "" && k < |texts| && forall i :: 0 <= i < |texts| ==> u.nfc(texts[i]) == texts[i]
    requires forall i :: 0 <= i < |texts| && i != k ==> CountIn(u.nfc(needle), texts[i]) == 0
    ensures CountAll(u, needle, texts) == CountIn(u.nfc(needle), texts[k])
  {
    hide CountIn;
    if k > 0 {
      CountOnly(u, needle, texts[1..], k - 1);
    } else {
      CountNone(u, needle, texts[1..]);
    }
  }

  lemma {:induction false} CountNone(u: Unicode, needle: string, texts: seq<string>)
    requires u.nfc(needle) != "" && forall i :: 0 <= i < |texts| ==> u.nfc(texts[i]) == texts[i]
    requires forall i :: 0 <= i < |texts| ==> CountIn(u.nfc(needle), texts[i]) == 0
    ensures CountAll(u, needle, texts) == 0
  {
    hide CountIn;
    if texts != [] {
      CountNone(u, needle, texts[1..]);
    }
  }

  // ---------- Which texts are plain ----------

  /** Replacements are normal and begin with an ASCII character, and so does what follows a span. */
  ghost predicate Sealed(u: Unicode, text: string, spans: seq<Span>) {
    forall s :: s in spans ==>
      && s.replacement != "" && s.replacement[0] < 128 as char && u.nfc(s.replacement) == s.replacement
      && (s.end < |text| ==> text[s.end] < 128 as char)
  }

  /** Normal text stays normal under replacement if no mark follows a span directly. */
  lemma SealedTextIsPlain(u: Unicode, ps: Patterns, text: string)
    requires u.Lawful() && u.SlicesStay() && u.AsciiSeparates()
    requires u.nfc(text) == text && Sealed(u, text, ps.Find(text))
    ensures Plain(u, ps, text)
  {
    ReplaceIsWeave(ps, text);
    hide Patterns.Find, Patterns.Replace, Weave, Sealed;
    WovenIsNormal(u, text, ps.Find(text), 0);
  }

  lemma {:induction false} WovenIsNormal(u: Unicode, text: string, spans: seq<Span>, cursor: nat)
    requires u.Lawful() && u.SlicesStay() && u.AsciiSeparates()
    requires u.nfc(text) == text && Within(spans, cursor, text) && Sealed(u, text, spans)
    ensures u.nfc(Weave(text, spans, cursor)) == Weave(text, spans, cursor)
    ensures Weave(text, spans, cursor) != "" && (cursor < |text| ==> text[cursor] < 128 as char) ==>
              Weave(text, spans, cursor)[0] < 128 as char
    decreases |spans|
  {
    if spans == [] {
      assert text[cursor..] == text[cursor..|text|];
    } else {
      var s := spans[0];
      assert s in spans;
      SpansFollow(spans, cursor, text);
      WeaveHead(text, spans, cursor);
      WovenIsNormal(u, text, spans[1..], s.end);
      var head, rest := text[cursor..s.start], Weave(text, spans[1..], s.end);
      hide Weave, Within, Unicode.SlicesStay, Unicode.Lawful, Unicode.AsciiSeparates;
      SliceIsNormal(u, text, cursor, s.start);
      JoinNormal(u, s.replacement, rest);
      JoinNormal(u, head, s.replacement + rest);
      assert head + s.replacement + rest == head + (s.replacement + rest);
    }
  }

  lemma SliceIsNormal(u: Unicode, text: string, a: nat, b: nat)
    requires u.SlicesStay() && u.nfc(text) == text && a <= b <= |text|
    ensures u.nfc(text[a..b]) == text[a..b]
  {
  }

  lemma JoinNormal(u: Unicode, a: string, b: string)
    requires u.AsciiSeparates() && u.nfc(a) == a && u.nfc(b) == b && (b != "" ==> b[0] < 128 as char)
    ensures u.nfc(a + b) == a + b
  {
    if b == "" {
      assert a + b == a;
    }
  }
}
