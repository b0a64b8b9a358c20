# Verification of the anonymization engine

A Dafny 4.11 model of the algorithmic core of the anonymizer, with proofs of the properties its
design relies on. `dafny verify dfyconfig.toml` checks the whole project.

What is modelled, and the main results:

* **Matching and the policy compiler** (`Text`, `Occurrences`, `AhoCorasick`, `Selection`,
  `Replacement`, `Matching`, `Overlap`, `Policy`, `PolicyGuarantees`). The automaton is a class that
  grows its trie, links it breadth first and scans; a scan returns exactly the naive list of
  occurrences, each once per pattern. Selection over that list is leftmost, longest, least rule
  identifier. On top of it: which text survives, which is replaced, when a protected value can be
  touched and when two identities can claim one text, both as exact conditions on the policy. The
  compiler's own checks are weaker than these conditions in two ways; concrete policies show it.
* **The transform against its verifier** (`OutputSafety`, `OutputGuarantees`, `CorpusVerification`,
  `CountSafety`, `CorpusGuarantees`, `RefusedOutputs`). The verifier refuses an output that still
  shows a pattern, whose protected values occur another number of times, or that lacks the pseudonym
  of a subject found in the source. For a policy whose forms are clear of protected values, it accepts
  every corpus the transform writes exactly when all texts of a bounded length pass and every
  number's replaced spelling speaks for the others. No pattern and no protected value overlapping
  a replacement suffices for texts. Compiled policies with one file each show how every condition
  fails, whatever the digest.
* **Differential privacy** (`NoiseSampler`, `NoiseDistribution`, `DpRelease`, `DpHistogram`, `DpTapes`,
  `Releases`, `BudgetLedger`). Sampling reads an explicit tape of draws. The tapes on which a batch or
  a histogram gives its answers are listed, each once and all of them; their weights over `real` are
  added up exactly and tend to the joint probability. The likelihood ratios of a count, a batch and a
  histogram are bounded by 2, 2^n and 2. The ledger is a state machine of interleaved, crashing calls
  for batches and histograms alike; everything it ever pays for, taken together, is bounded by 2 to
  the number of queries and histograms, and each of those costs 7/10 of the budget.
* **k-anonymity transforms** (`EquivalenceClasses`, `Hierarchies`, `LocalRecoding`,
  `GlobalRecoding`, `Microaggregation`). Greedy local recoding terminates, freezes safe records and
  ends safe or exhausted; the lattice search is optimal; microaggregation conserves column sums.
* **DICOM** (`DicomFormat`, `DicomRoundTrip`, `DicomRedaction`, `DicomReparse`). A parser over bytes
  and an encoder for explicit little-endian, implicit little-endian and explicit big-endian elements
  (DICOM PS3.5 sections 7.1.2 and 7.1.3, PS3.10 section 7.1) undo each other. A redacted file is read
  back as meant exactly when each of its headers means the same under the transfer syntax that the
  output declares; a redaction that rewrites that name shows the failure.
* **Publication** (`Publication`, `PublicationSafety`). The steps of a run are a log of directory
  updates and fsyncs. Marker and corpus are touched only past the seal that follows a successful
  verification, and a corpus is swapped in only where nothing but the run's stage is left. Every prefix
  of every sequence of runs keeps the readiness marker over its own sealed corpus only. So does every
  surviving subset after a power loss, as long as no run starts while an earlier one's removal of the
  marker awaits its fsync; a run that does can leave the old marker over a new corpus, and two cut
  runs show it.
* **Relationship attack** (`ContextualGraph`, `ContextualAudit`). Breadth-first distances are
  shortest paths, and the verdict is characterised and monotone in the attacker's knowledge.
* **The rest of the chain** (`JsonTransform`, `CsvDialect`, `Pseudonyms`). The JSON transform against
  the verifier's recomputation, the CSV dialect automaton against the field grammar of section 2 of
  RFC 4180, and the pseudonym allocator.

A method that works step by step in the program is a method here, with its loops, proved equal to a
specification function; the properties are lemmas about that function.

Where code and documentation disagree: `docs/ANONYMIZATION_SEMANTICS.md` says matching does not
normalise, while `policy.py` registers the NFC and NFD forms and the digits-only form of each value.
The model follows the code.

## Model

| member | source | states |
|---|---|---|
| Occurrences.HitMultiplicity | src/anonymization_trial/matcher.py:90-101 | in the specification list of hits, a span with its payload appears exactly as many times as patterns produce it, for any patterns and any text |
| Occurrences.HitIffProduced | src/anonymization_trial/matcher.py:90-101 | a hit is listed if and only if some pattern's literal equals the text between its offsets, with that pattern's replacement and rule |
| AhoCorasick.Aho.constructor | src/anonymization_trial/matcher.py:53-60 | from any list of non-empty literals the constructor builds an automaton whose failure links and outputs are all final |
| AhoCorasick.Aho.Add | src/anonymization_trial/matcher.py:62-73 | adding a pattern keeps the nodes a trie of the literals so far, with each node holding exactly its own literals' outputs, in insertion order |
| AhoCorasick.Aho.Build | src/anonymization_trial/matcher.py:75-88 | terminates, and leaves every node with the longest proper suffix in the trie as failure link and with the outputs of all suffixes |
| AhoCorasick.Aho.LinkRoot | src/anonymization_trial/matcher.py:75-79 | after the first loop the root's children are queued and final, and the queue invariant holds |
| AhoCorasick.Aho.LinkChildren | src/anonymization_trial/matcher.py:82-88 | linking all children of the node taken from the queue keeps the breadth-first invariant: merged output lists were already final |
| AhoCorasick.Aho.LinkFor | src/anonymization_trial/matcher.py:84-87 | chasing from the node's failure link finds the longest proper suffix of the child's path, and that node is already final |
| AhoCorasick.Aho.Follow | src/anonymization_trial/matcher.py:95-97 | the failure chase terminates and reaches the node that the chase over strings reaches |
| AhoCorasick.Aho.Scan | src/anonymization_trial/matcher.py:90-101 | the scan returns exactly the specification's hit list, in its order |
| AhoCorasick.ChaseIsLongestSuffix | src/anonymization_trial/matcher.py:95-97 | over a prefix-closed word set, chasing from the longest suffix of w and stepping on c gives the longest suffix of w followed by c |
| AhoCorasick.SuffixOutputsSkip | src/anonymization_trial/matcher.py:87-88 | the outputs due at a text position are those of the longest suffix in the trie alone |
| AhoCorasick.ShallowIsDone | src/anonymization_trial/matcher.py:80-88 | breadth-first order: when a node is taken from the queue every node at most as deep is already final |
| Selection.Select | src/anonymization_trial/matcher.py:137-148 | sorting and sweeping a cursor yields exactly the recursive choice: best hit, then the same on what starts at or after its end |
| Selection.SortKeepsChoice | src/anonymization_trial/matcher.py:140 | the recursive choice is the same before and after the stable sort |
| Selection.Best | src/anonymization_trial/matcher.py:140 | the first choice is a hit that no other precedes by start, then length, then rule identifier |
| Replacement.ChoiceIsDisjoint | src/anonymization_trial/matcher.py:137-148 | chosen spans are hits, increasing and pairwise disjoint |
| Replacement.EveryHitIsCovered | src/anonymization_trial/matcher.py:137-148 | every hit overlaps a chosen span that starts no later, and one at least as long when they start together |
| Replacement.ChosenIsFirst | src/anonymization_trial/matcher.py:140 | of the hits that start where a chosen span starts, none is longer, and none as long has a lesser rule identifier |
| Text.LessAtFirstDifference | src/anonymization_trial/matcher.py:140 | rule identifiers compare at the first position where they differ, and a proper prefix comes first |
| Replacement.UntouchedTextIsKept | src/anonymization_trial/matcher.py:123-134 | any window of text that no chosen span touches is found in the output at its shifted offset |
| Replacement.SpanIsReplaced | src/anonymization_trial/matcher.py:123-134 | each chosen span's own replacement is found in the output at the span's shifted offset |
| Replacement.WeaveLength | src/anonymization_trial/matcher.py:123-134 | the output holds nothing else: its length is the text's plus the growth of the spans |
| Replacement.TiesDoNotMatter | src/anonymization_trial/matcher.py:137-148 | with one replacement per span, two hit lists with the same spans and replacements lead to the same choice up to rule identifiers |
| Replacement.HitOrderDoesNotMatter | src/anonymization_trial/matcher.py:137-148 | when the sort key determines a hit, the choice depends on the set of hits alone |
| Matching.Matcher.constructor | src/anonymization_trial/matcher.py:107-113 | an automaton is built for each non-empty pattern list and both are ready to scan |
| Matching.Matcher.Find | src/anonymization_trial/matcher.py:115-121 | case-sensitive hits of the text and case-insensitive hits of its lowered view, in that order, then one selection |
| Matching.Matcher.Replace | src/anonymization_trial/matcher.py:123-134 | the loop over spans builds exactly the woven text and counts the spans; without spans the text itself is returned |
| Matching.Patterns.RawHitsAreMatches | src/anonymization_trial/matcher.py:115-121 | candidate hits are exactly the matches of the two pattern lists, all inside the original text |
| Matching.Patterns.FindCovers | src/anonymization_trial/matcher.py:115-121 | no match anywhere in a text escapes: a found span starting no later overlaps it |
| Matching.Patterns.FindsNothingIffNoMatch | src/anonymization_trial/matcher.py:123-126 | a count of zero means that no pattern occurs, and then the text is returned unchanged |
| Matching.Patterns.UnmatchedTextSurvives | src/anonymization_trial/matcher.py:123-134 | text that no match touches survives replacement, in order, at its shifted offset |
| Matching.Patterns.FoundTextIsReplaced | src/anonymization_trial/matcher.py:123-134 | found spans are replaced in place and nothing else is added: no rescanning |
| Text.LoweredAgree | src/anonymization_trial/matcher.py:23-32 | two texts have one lowered view if and only if they are equally long and differ, position by position, at most as a capital and its small letter among the 26 ASCII letters |
| Matching.MatchesWhatTriplesReport | src/anonymization_trial/matcher.py:150-163 | a matcher built from triples matches a span if and only if its text is the literal of a case-sensitive triple, or that of a case-insensitive one but for the case of ASCII letters, with the triple's replacement and rule |
| Matching.FindsWhatTriplesReport | src/anonymization_trial/matcher.py:115-121 | it finds such spans only, one that starts no later overlaps every such span, and nothing is found exactly when there is none |
| Matching.ReplaceIgnoresTies | src/anonymization_trial/matcher.py:140 | matchers that report the same spans with one replacement each rewrite every text alike |
| Overlap.FindBoundaryOverlap | src/anonymization_trial/policy.py:119-127 | true exactly when a non-empty suffix of one literal is a prefix of the other |
| Overlap.MeetingOverlaps | src/anonymization_trial/policy.py:130-145 | the five-way test is sound: literals that share a character of any text pass it |
| Overlap.OverlapMeets | src/anonymization_trial/policy.py:130-145 | and complete: literals that pass it share a character of some text |
| Overlap.MeetingFoldedOverlaps | src/anonymization_trial/policy.py:130-145 | soundness for a case-insensitive rule against an exact protected value |
| Overlap.FoldedOverlapMeets | src/anonymization_trial/policy.py:130-145 | completeness for a case-insensitive rule against an exact protected value |
| Policy.ClaimKey | src/anonymization_trial/policy.py:290-304 | one key of one rule: a conflict is reported exactly when an earlier claim on the key conflicts, and exactly this claim is recorded |
| Policy.ClaimRule | src/anonymization_trial/policy.py:290-304 | one rule: a conflict is reported exactly when some earlier rule conflicts with it on a common key |
| Policy.FindConflict | src/anonymization_trial/policy.py:290-304 | the loop reports a conflict exactly when some two rules of the policy conflict, whatever their order |
| Policy.CheckOverlap | src/anonymization_trial/policy.py:130-145 | clear exactly when no rule value overlaps a protected value under the rule's case handling |
| Policy.ScreenRules | src/anonymization_trial/policy.py:234-250 | returns the error of the first rule with an empty field, a repeated identifier or a non-ASCII case-insensitive value, in this order; each error names a defect that some rule has, and without an error no rule has any |
| Policy.RegisterPatterns | src/anonymization_trial/policy.py:310-329 | the two lists hold exactly the value, its normal forms and its digit alias of every rule, with the identity's pseudonym |
| Policy.HitIsRuleMatch | src/anonymization_trial/policy.py:310-329 | a match of the compiled patterns is exactly a rule one of whose forms equals the span's text under its case handling |
| Policy.FormsAreSpelled | src/anonymization_trial/policy.py:35-44 | the forms of a rule are its value, that value in the two normal forms, and the string of all its digits in order when there are at least seven and something else beside them |
| Policy.MatchesAreWrittenForms | src/anonymization_trial/policy.py:310-329 | a compiled policy matches a span if and only if its text is such a form of a rule, up to the case of ASCII letters when the rule ignores case, and with the pseudonym of the rule's identity |
| Policy.Compile | src/anonymization_trial/policy.py:148-338 | fails with the first failing check's error in the compiler's order, and otherwise registers the patterns of an accepted policy, whose rules have no defect and whose protected values are not empty |
| PolicyGuarantees.MatchedTextIsClaimed | src/anonymization_trial/policy.py:290-304 | whatever text a rule matches has its folded normal form among the rule's match-domain keys |
| PolicyGuarantees.TiesAgreeIffTwinFree | src/anonymization_trial/policy.py:298-299 | among conflict-free rules, no text belongs to two identities if and only if no two identities have case-sensitive values equal up to NFC |
| PolicyGuarantees.TwinsAreAccepted | src/anonymization_trial/policy.py:298-299 | counterexample: the compiler accepts a composed and a decomposed spelling of one name under two identities, which then match the same text |
| PolicyGuarantees.TwinsMakeTieBreaksMatter | src/anonymization_trial/matcher.py:140 | and swapping the two rules' identifiers then changes the output for that name, for every digest |
| PolicyGuarantees.OneReplacementPerMatch | src/anonymization_trial/policy.py:290-329 | in a twin-free accepted policy, matches on one span carry one replacement, digit aliases and case-insensitive rules included |
| PolicyGuarantees.TieBreaksAreImmaterial | src/anonymization_trial/matcher.py:140 | in such a policy, any reordering of patterns and any other rule identifiers leave every output unchanged |
| PolicyGuarantees.RegistrationOrderIsImmaterial | src/anonymization_trial/policy.py:318-326 | for every accepted policy, the arbitrary order in which the set of forms is registered changes neither spans nor output |
| PolicyGuarantees.ProtectedUntouchedIffFormsOverlapFree | src/anonymization_trial/policy.py:130-145 | no match in any text touches a protected value if and only if no registered form overlaps one |
| PolicyGuarantees.FormTouches | src/anonymization_trial/policy.py:310-329 | an overlapping form does touch the protected value in a text that is constructed |
| PolicyGuarantees.PlainPolicyIsSafe | src/anonymization_trial/policy.py:130-145 | the compiler's check on values suffices when values are their only forms |
| PolicyGuarantees.AliasTouchesProtected | src/anonymization_trial/policy.py:37-41 | counterexample: the compiler accepts a rule value whose digit alias is a protected value, whatever other characters count as digits |
| PolicyGuarantees.ProtectedValuesSurvive | src/anonymization_trial/matcher.py:123-134 | when no match touches protected values, each occurrence reappears in the output at its shifted offset |
| PolicyGuarantees.AcceptedPolicyProtects | src/anonymization_trial/policy.py:130-145 | an accepted policy whose only forms are its values keeps every occurrence of every protected value in every text |
| Pseudonyms.BuildReplacements | src/anonymization_trial/pseudonyms.py:62-104 | terminates and equals the plan over the sorted distinct identities, or reports an exhausted namespace |
| Pseudonyms.Search | src/anonymization_trial/pseudonyms.py:91-101 | the salt loop finds the least salt whose rendering is free, up to the cap |
| Pseudonyms.PlanIsInjective | src/anonymization_trial/pseudonyms.py:84-104 | the plan covers exactly the identities, renders each from its own digest, and is injective per data type for any digest function |
| Pseudonyms.RenderSpelled | src/anonymization_trial/pseudonyms.py:46-59 | each type has its shape: the first ten digits of the digest between fixed texts, a telephone number of four digits, or an address of the test network, from the number that the first eight hexadecimal digits stand for |
| Pseudonyms.DecimalReadsBack | src/anonymization_trial/pseudonyms.py:54-56 | decimal notation reads back as the number, without leading zeros |
| Pseudonyms.PlanIsLeast | src/anonymization_trial/pseudonyms.py:71-104 | every identity gets the rendering of its least salt that no earlier identity of its type holds; a refusal means more identities than the domain has values, or one identity whose permitted salts are all taken |
| Pseudonyms.PlanDependsOnSet | src/anonymization_trial/pseudonyms.py:71 | order and repetition of the identities do not matter |
| Pseudonyms.CapacityIsSharp | src/anonymization_trial/pseudonyms.py:76-82 | the preflight refuses nothing possible: beyond a capacity no injective assignment of renderings exists |
| JsonTransform.ReplaceJson | src/anonymization_trial/formats.py:219-269 | the recursion succeeds exactly on trees without a problem, reports the first problem in document order, and yields the verifier's tree and the sum of counts over leaves |
| JsonTransform.ReplaceNumber | src/anonymization_trial/formats.py:256-268 | a number is replaced by the first spelling the patterns change, refused when a leading-zero rule value loses its zeros, and kept otherwise |
| JsonTransform.ProblemIffWrong | src/anonymization_trial/formats.py:145-269 | a tree is refused if and only if it is nested too deep, has a string or key that is too long, a key that shows a pattern, or a number one of whose spellings is a rule's digits without their leading zeros; and the error is that of something wrong in it |
| JsonTransform.NumberReplacementSpelled | src/anonymization_trial/formats.py:264-268 | the spelling that replaces a number is the first one that replacement changes |
| JsonTransform.CountOfLeaf | src/anonymization_trial/formats.py:224-269 | the count of a leaf: one for each span found in a string, those of the replaced spelling of a number, else zero |
| JsonTransform.CountAddsUp | src/anonymization_trial/formats.py:230-254 | the count of a list is the sum over its items |
| JsonTransform.CountOfEntries | src/anonymization_trial/formats.py:238-254 | and that of an object the sum over its values |
| JsonTransform.ExpectedKeepsShape | src/anonymization_trial/verification.py:36-58 | the expected tree has the same keys in the same order, list lengths and nesting, and stays well formed |
| JsonTransform.TypedEqualIffSameMeaning | src/anonymization_trial/verification.py:154-168 | typed equality holds exactly when the trees mean the same: equal maps by key, equal lists, scalars equal with their types |
| JsonTransform.VerifyJson | src/anonymization_trial/verification.py:176-187 | accepts exactly when no decoded string has a match and the output is typed-equal to the expected tree |
| JsonTransform.AcceptedOutputIsTheReplacement | src/anonymization_trial/verification.py:176-187 | any accepted output, whoever wrote it, means the leafwise replacement and has no match in any decoded key, string or number spelling |
| OutputSafety.ApartMeansClean | src/anonymization_trial/matcher.py:123-134 | when no pattern overlaps a non-empty replacement in its own case view, no output shows a pattern |
| OutputSafety.ReplaceInside | src/anonymization_trial/matcher.py:115-134 | replacing a piece cut out between spans gives the output between the cuts: matching and selection are local |
| OutputSafety.ShortWitness | src/anonymization_trial/matcher.py:123-134 | a text whose output shows a pattern contains a short slice whose own output, a slice of the whole output, shows one |
| OutputSafety.OutputsCleanIffShortOnesAre | src/anonymization_trial/matcher.py:123-134 | no output ever shows a pattern if and only if no output of a text of bounded length does |
| OutputGuarantees.TransformedTreeIsClean | src/anonymization_trial/verification.py:36-58 | when outputs show no pattern, no key, string or number spelling of any transformed tree does |
| OutputGuarantees.ApartPoliciesPass | src/anonymization_trial/verification.py:241-256 | the literal scan and the tree comparison: under an accepted policy every transformed tree passes these two checks when no pattern overlaps a replacement |
| OutputGuarantees.OwnTreesPassIffShortOutputsClean | src/anonymization_trial/verification.py:241-256 | every transformed tree passes these two checks if and only if no text of at most the square of the longest literal has an output showing a pattern; a square beyond the string limit leaves the condition sufficient |
| CorpusVerification.TransformFile | src/anonymization_trial/formats.py:40-73 | a text or JSON file is transformed to its expected output, or refused for the first problem in it: for a text exactly when it has a NUL, for a tree exactly when something in it is wrong |
| CorpusVerification.CountText | src/anonymization_trial/verification.py:225-234 | the left-to-right scan counts occurrences that do not overlap each other |
| CorpusVerification.Count | src/anonymization_trial/verification.py:225-234 | the number of such occurrences of the normalized value in the normalized texts |
| CorpusVerification.CountIsAttained | src/anonymization_trial/verification.py:225-234 | that many occurrences that do not overlap each other can be listed |
| CorpusVerification.CountIsLargest | src/anonymization_trial/verification.py:225-234 | and no list of such occurrences is longer |
| CorpusVerification.RulePresent | src/anonymization_trial/verification.py:237-238 | true exactly when a span found in some text carries the rule's identifier |
| CorpusVerification.VerifyFile | src/anonymization_trial/verification.py:250-272 | a file is accepted exactly when no searchable text shows a pattern and its content is the expected one, with types |
| CorpusVerification.CheckDistinct | src/anonymization_trial/verification.py:285-298 | true exactly when no two identities of one type share a pseudonym |
| CorpusVerification.VerifySubjects | src/anonymization_trial/verification.py:285-311 | true exactly when pseudonyms are distinct per type and every identity found in the source shows its pseudonym in the output |
| CorpusVerification.VerifyCorpus | src/anonymization_trial/verification.py:241-311 | accepts exactly the corpora that pass the literal scan, the comparison with the expected content, the protected counts and the subject coverage |
| CountSafety.CountAround | src/anonymization_trial/verification.py:225-234 | a stretch that no occurrence touches separates the counts on its two sides |
| CountSafety.KeptCountsAgree | src/anonymization_trial/verification.py:274-281 | when no span touches an occurrence and every occurrence in the output is kept text, text and output have the same count |
| CountSafety.CountWitness | src/anonymization_trial/verification.py:274-281 | if a literal that no match ever touches is counted differently in a text and its output, a short slice of the text is without it and has an output that shows it |
| CorpusGuarantees.OwnCorporaVerifiedIffShortTextsPass | src/anonymization_trial/verification.py:241-311 | under an accepted policy whose forms are clear of protected values, all checks accept every corpus the transform writes from texts that normalization leaves alone if and only if texts of bounded length pass the scan and the count, and every number's replaced spelling speaks for its other spellings |
| CorpusGuarantees.TextsPassIffShortOnesDo | src/anonymization_trial/verification.py:241-281 | all such texts show no pattern and keep every protected count if and only if the short ones do |
| CorpusGuarantees.ClearPoliciesAreVerified | src/anonymization_trial/verification.py:241-311 | a check on pairs: no pattern and no protected value overlapping a replacement suffices for all texts, and with numbers that pass for all corpora |
| CorpusGuarantees.BareSpellingsAgree | src/anonymization_trial/verification.py:299-311 | a number passes when its spellings other than the replaced one show neither a pattern nor a protected value |
| CorpusGuarantees.SealedTextIsPlain | src/anonymization_trial/verification.py:225-234 | normalization leaves the output of a normal text alone when replacements are normal and begin with an ASCII character, and an ASCII character or the end follows each span |
| CorpusGuarantees.TreeCounts | src/anonymization_trial/verification.py:274-281 | in a JSON tree of such strings every protected value is counted as often in the output as in the source |
| CorpusGuarantees.TreeShows | src/anonymization_trial/verification.py:299-311 | and every identity with a span in some string of it shows its pseudonym in some string of the output |
| CorpusGuarantees.SpanIsShown | src/anonymization_trial/verification.py:299-311 | the output of a text shows the pseudonym of every span found in it |
| CorpusGuarantees.OutputComesFrom | src/anonymization_trial/formats.py:219-269 | every string of the output tree is the replaced form of a string of the source tree |
| RefusedOutputs.ProtectedCountCanChange | src/anonymization_trial/verification.py:274-281 | counterexample: with address rule "ab" and 198 protected, the policy is accepted, no pattern overlaps a replacement, and the output of "ab" is refused for every digest |
| RefusedOutputs.JoinedTextIsRefused | src/anonymization_trial/verification.py:249-256 | counterexample: with address rule "ab" and name rule "x198" the output of "xab" is refused for every digest |
| RefusedOutputs.AliasLosesProtected | src/anonymization_trial/verification.py:274-281 | counterexample: with a rule whose digit alias is the protected value, the output of that value is refused |
| RefusedOutputs.SpellingsCanDisagree | src/anonymization_trial/verification.py:299-311 | counterexample: a JSON number whose two spellings belong to two identities is replaced by its first alone, and the output is refused for want of the second pseudonym |
| RefusedOutputs.MarkHidesPseudonym | src/anonymization_trial/verification.py:225-234 | counterexample: a combining mark after an e-mail address composes with the last letter of its pseudonym, and the output is refused |
| CsvDialect.AcceptsDialect | src/anonymization_trial/formats.py:76-97 | the character loop computes the automaton's verdict |
| CsvDialect.AcceptedIffGrammatical | src/anonymization_trial/formats.py:76-97 | a text is accepted if and only if it is a rendering of fields, each empty, plain or quoted with doubled quotes, separated by comma, CR or LF |
| CsvDialect.SplitIsUnique | src/anonymization_trial/formats.py:76-97 | a text renders at most one list of fields and separators |
| NoiseSampler.SampleTwoSidedGeometric | src/anonymization_trial/tabular_privacy.py:235-244 | the two loops return the specification's noise for the tape and consume exactly the draws it uses |
| NoiseSampler.CountZeros | src/anonymization_trial/tabular_privacy.py:241-243 | one more than the number of zero bits before the first other bit |
| NoiseDistribution.SampleOfTape | src/anonymization_trial/tabular_privacy.py:235-244 | for each noise value and number of redraws there is a tape that yields it, using exactly its own draws, whatever follows |
| NoiseDistribution.TapeIsTapeOf | src/anonymization_trial/tabular_privacy.py:235-244 | conversely, what a sample reads off any fair tape is one of those tapes |
| NoiseDistribution.TapesDiffer | src/anonymization_trial/tabular_privacy.py:235-244 | different numbers of redraws are different tapes, so their weights may be added |
| NoiseDistribution.TapeWeight | src/anonymization_trial/tabular_privacy.py:235-244 | the exact weight of each tape |
| NoiseDistribution.MassIsExact | src/anonymization_trial/tabular_privacy.py:235-244 | within R branch draws the noise z has mass exactly (1 - 4^-R) P(z), with P(0) = 1/3 and P(+m) = P(-m) = 1/(3 * 2^m) |
| NoiseDistribution.TotalIsOne | src/anonymization_trial/tabular_privacy.py:235-244 | the masses of all values up to m in size sum to 1 - 2/3 * 2^-m |
| NoiseDistribution.HalfVanishes | src/anonymization_trial/tabular_privacy.py:235-244 | 2^-n is at most 1/(n + 1), so that remainder vanishes |
| NoiseDistribution.NeighbourRatio | src/anonymization_trial/tabular_privacy.py:256-260 | neighbouring noise values have probabilities within a factor of two |
| DpRelease.ReleaseDpCount | src/anonymization_trial/tabular_privacy.py:247-302 | validates budget and column, then releases the number of records that meet the query, as the cardinality of their set, plus one sample, clamped at zero |
| DpRelease.ClampMassIsTheSum | src/anonymization_trial/tabular_privacy.py:280 | the released probability is the sum of the noise masses that clamp to the value; the tail at zero is exact |
| DpRelease.CountIsPrivate | src/anonymization_trial/tabular_privacy.py:256-260 | counts of neighbouring tables give every output probabilities within a factor of two |
| DpRelease.CountBoundIsTight | src/anonymization_trial/tabular_privacy.py:256-260 | the factor two is attained |
| DpRelease.CountsDifferByOne | src/anonymization_trial/tabular_privacy.py:274 | adding or removing a row changes any query's true count by one at most |
| DpRelease.CountIsCardinality | src/anonymization_trial/tabular_privacy.py:274 | the true count is the cardinality of the set of records that meet the query |
| DpRelease.ReleaseDpCounts | src/anonymization_trial/tabular_privacy.py:305-349 | every outcome: the first failing check is reported before anything is drawn; a valid batch is answered with the clamped counts under consecutive samples, a missing column ends it there, and the samples before it are drawn; an answered batch is within its budget and uses exactly its own draws, each answer is the number of records that meet the query plus its sample, and each error names a defect of the request |
| DpRelease.SamplesAreIndependent | src/anonymization_trial/tabular_privacy.py:331-334 | the tape of a batch is the queries' tapes in turn and its weight their product |
| DpRelease.MassRatio | src/anonymization_trial/tabular_privacy.py:331-334 | products of n masses under counts that differ by one everywhere differ by 2^n at most |
| DpRelease.BatchIsPrivate | src/anonymization_trial/tabular_privacy.py:331-334 | the joint answer of n queries changes in likelihood by 2^n at most between neighbouring tables |
| DpRelease.QueriesWithinBudget | src/anonymization_trial/tabular_privacy.py:216-232 | n valid queries cost at least 7/10 each |
| DpRelease.TotalIsTheSum | src/anonymization_trial/tabular_privacy.py:328 | the composed budget is the sum: it adds up over batches, and one query costs its own epsilon |
| DpRelease.TwoIsWithinExp | src/anonymization_trial/tabular_privacy.py:214-218 | why factors of two are within the declared budget: for every accepted epsilon already the first terms of the series of e to the epsilon exceed two |
| DpHistogram.ReleaseHistogram | src/anonymization_trial/tabular_privacy.py:449-500 | every outcome: the first failing check, which names a defect of the request, is reported before anything is drawn, otherwise each cell of the product is released as often as its clamped noisy count says, the count being the number of records with the cell's values |
| DpHistogram.InCells | src/anonymization_trial/tabular_privacy.py:490 | the product lists a cell exactly when each coordinate is in its domain |
| DpHistogram.CellsDistinct | src/anonymization_trial/tabular_privacy.py:490 | no cell is listed twice |
| DpHistogram.CellsAreOrdered | src/anonymization_trial/tabular_privacy.py:490 | of two listed cells the earlier one has the value declared earlier at the first dimension where they differ |
| DpHistogram.CellCountIsCardinality | src/anonymization_trial/tabular_privacy.py:489 | the count of a cell is the cardinality of the set of records with its values |
| DpHistogram.ExpandIsInjective | src/anonymization_trial/tabular_privacy.py:498-500 | different noisy counts give different synthetic files |
| DpHistogram.OneCellMoves | src/anonymization_trial/tabular_privacy.py:489 | one record more changes the count of its own cell by one and no other |
| DpHistogram.EveryRecordHasACell | src/anonymization_trial/tabular_privacy.py:484-487 | a record of a releasable table lies in a listed cell |
| DpHistogram.HistogramIsPrivate | src/anonymization_trial/tabular_privacy.py:489-500 | the whole file changes in likelihood by two at most between neighbouring tables, however many cells there are |
| DpTapes.TapesAreTapesOf | src/anonymization_trial/tabular_privacy.py:331-334 | what n samples read off any fair tape is the tape of their noise and some redraws |
| DpTapes.RejectionsAreUnique | src/anonymization_trial/tabular_privacy.py:235-244 | and by exactly one choice of redraws, so no tape is counted twice |
| DpTapes.BatchTapesWeight | src/anonymization_trial/tabular_privacy.py:235-244 | the listed tapes weigh the product of the answers' masses |
| DpTapes.TapeMassConverges | src/anonymization_trial/tabular_privacy.py:235-244 | how close: for any slack there are limits beyond which the listed weight is within it of the joint probability |
| DpTapes.BatchMassIsProbability | src/anonymization_trial/tabular_privacy.py:235-244 | the tapes that give the answers, listed within limits: disjoint, all of them up to the limits, of weight exactly the product of (1 - 4^-R) times the partial masses, and the weights tend to the joint probability from below |
| DpTapes.BatchOnTape | src/anonymization_trial/tabular_privacy.py:331-334 | the tapes of a batch's answers are exactly the used-up fair tapes on which the batch is answered so |
| DpTapes.HistogramOnTape | src/anonymization_trial/tabular_privacy.py:489-500 | the tapes of a histogram's noisy counts are exactly those that release its file |
| DpTapes.BatchTapesArePrivate | src/anonymization_trial/tabular_privacy.py:331-334 | whatever the limits, the tapes on which one table gives the answers weigh at most 2^n times those on which its neighbour does |
| DpTapes.HistogramTapesArePrivate | src/anonymization_trial/tabular_privacy.py:489-500 | whatever the limits, the tapes on which one table gives a histogram weigh at most twice those on which its neighbour does |
| Releases.CostIsDeclared | src/anonymization_trial/tabular_privacy.py:410-423 | what a request costs is what it declares, added up over the queries of a batch and over the releases of a run |
| Releases.DoublingsArePaid | src/anonymization_trial/tabular_privacy.py:216-232 | each query and each histogram costs at least 7/10 |
| Releases.RequestsMove | src/anonymization_trial/tabular_privacy.py:256-260 | one record more or less moves at most as many of the counts behind all releases as there are queries and histograms, each by one |
| Releases.ReleasesArePrivate | src/anonymization_trial/tabular_privacy.py:539-577 | batches and histograms together: the joint answer, and whatever the limits the weight of its tapes, changes by a factor of 2 to the number of queries and histograms at most |
| Releases.ReleasesOnTape | src/anonymization_trial/tabular_privacy.py:410-577 | the tapes of the joint answer are exactly those that split into stretches on which the releases, one after the other, give their own answers or files |
| Releases.SampleSplit | src/anonymization_trial/tabular_privacy.py:331-334 | sampling on after a stretch of the tape is sampling the rest of it |
| BudgetLedger.Ledger.Spend | src/anonymization_trial/tabular_privacy.py:352-407 | for a batch or a histogram: records the cumulative spend before the release, or refuses and leaves the ledger as it was; it succeeds only on a blank ledger or on one of the call's own budget and maximum, within that maximum, and each refusal has its cause |
| BudgetLedger.CheckRequest | src/anonymization_trial/tabular_privacy.py:410-423 | a request is taken exactly when it is a histogram with a valid epsilon or a non-empty batch of queries with valid ones |
| BudgetLedger.StepKeepsInv | src/anonymization_trial/tabular_privacy.py:374-406 | each step of a call, from taking the lock to the producer, keeps the ledger invariant, the budget and the maximum once named, and never lowers the spend |
| BudgetLedger.CrashKeepsInv | src/anonymization_trial/tabular_privacy.py:374-406 | so does the death of a call at any step |
| BudgetLedger.RunKeepsInv | src/anonymization_trial/tabular_privacy.py:352-407 | the invariant holds in every state of every interleaving with crashes |
| BudgetLedger.SpendNeverDecreases | src/anonymization_trial/tabular_privacy.py:389-405 | over a run recorded spend never decreases, and budget and maximum never change once recorded |
| BudgetLedger.SpendCoversReleases | src/anonymization_trial/tabular_privacy.py:389-406 | recorded spend is at least the epsilon of all batches and histograms released and at most the maximum |
| BudgetLedger.ReleasesAreAskedFor | src/anonymization_trial/tabular_privacy.py:380-406 | in every state of a run, everything released was asked for by a call for the very budget and maximum that the ledger names |
| BudgetLedger.UndisturbedCall | src/anonymization_trial/tabular_privacy.py:374-407 | the state machine run by one call alone does what the sequential method does, and frees the lock |
| BudgetLedger.EverythingReleasedIsPrivate | src/anonymization_trial/tabular_privacy.py:352-577 | in any run, all batches and histograms released, together, change in likelihood by 2^d at most between neighbouring tables, d counting queries and histograms, as a joint probability and on the tapes on which they come out so, and d * 7/10 is within the maximum |
| Hierarchies.Prepare | src/anonymization_trial/tabular_privacy.py:874-893 | every outcome: the first failing check of columns, records, hierarchies and depths, which names a defect of the input, or the prepared input |
| Hierarchies.TaskIsUnique | src/anonymization_trial/tabular_privacy.py:874-893 | the input determines what is prepared |
| Hierarchies.CheckColumn | src/anonymization_trial/tabular_privacy.py:886-893 | one column: its common depth, or the first failing check |
| Hierarchies.ItemIsGeneralization | src/anonymization_trial/tabular_privacy.py:896-904 | a cell at level zero is the source cell, at level l the l-th generalization of the source value; all other columns are unchanged |
| EquivalenceClasses.KAnonymousIffShared | src/anonymization_trial/tabular_privacy.py:908-915 | k-anonymous means that every row shares its values in the given columns with at least k rows, itself included |
| LocalRecoding.UnsafeRecords | src/anonymization_trial/tabular_privacy.py:907-913 | lists exactly the records whose class is smaller than k, in order |
| LocalRecoding.TryColumn | src/anonymization_trial/tabular_privacy.py:917-924 | raises the column of exactly the unsafe records below its depth, or reports that none can be raised |
| LocalRecoding.ChooseColumn | src/anonymization_trial/tabular_privacy.py:916-936 | the loop over columns finds the specification's best column |
| LocalRecoding.BestColumnIsCheapest | src/anonymization_trial/tabular_privacy.py:933-936 | no other column leaves fewer unsafe records, nor as many with less generalization, nor ties with it further left |
| LocalRecoding.RaiseSpelled | src/anonymization_trial/tabular_privacy.py:917-924 | a round raises one column by one level for exactly the records in classes smaller than k that are not at their last level there |
| LocalRecoding.BestColumnSpelled | src/anonymization_trial/tabular_privacy.py:925-936 | raising another column than the chosen one leaves more records in small classes, or as many at a higher sum of levels, or as many at the same sum and stands further right |
| LocalRecoding.PlanTotalsAreSums | src/anonymization_trial/tabular_privacy.py:933 | the compared sum adds up over records |
| LocalRecoding.RefineLoop | src/anonymization_trial/tabular_privacy.py:906-936 | the while loop terminates with the specification's final plan |
| LocalRecoding.RaiseMakesProgress | src/anonymization_trial/tabular_privacy.py:906-936 | each round strictly raises the sum of levels, which records times total depth bounds |
| LocalRecoding.SafeSurvivesRound | src/anonymization_trial/tabular_privacy.py:920-923 | a round leaves a safe record's levels alone and does not shrink its class |
| LocalRecoding.SafeIsFrozen | src/anonymization_trial/tabular_privacy.py:906-936 | once safe, a record's levels are final and its class never shrinks to the end of the loop |
| LocalRecoding.EndsSafeOrExhausted | src/anonymization_trial/tabular_privacy.py:914-935 | the loop ends with every class of size k, or with every unsafe record generalized all the way |
| LocalRecoding.LevelsRise | src/anonymization_trial/tabular_privacy.py:921-922 | levels only rise and stay within depth |
| LocalRecoding.LocallyGeneralize | src/anonymization_trial/tabular_privacy.py:863-954 | every outcome: the first failing input check, an exhausted plan, a refused audit exactly for empty or repeated columns, and otherwise every record released under the final plan: each row is a generalization of its source row and shares its quasi-identifiers with at least k |
| LocalRecoding.ReleasedRowsAreKAnonymous | src/anonymization_trial/tabular_privacy.py:937-946 | the released rows themselves are k-anonymous and keep all columns, so the recomputation cannot fail |
| GlobalRecoding.InLattice | src/anonymization_trial/tabular_privacy.py:821 | the product enumerates exactly the level vectors within depth |
| GlobalRecoding.Search | src/anonymization_trial/tabular_privacy.py:820-841 | the chosen vector is admissible and lexicographically least in suppressed rows, level sum and levels; none is found only when none is admissible |
| GlobalRecoding.OptimalSpelled | src/anonymization_trial/tabular_privacy.py:836-841 | any other vector that keeps a row and is within the suppression bound keeps fewer rows, or as many at a higher sum of levels, or as many at the same sum and is higher at the first level where they differ |
| GlobalRecoding.KeptClasses | src/anonymization_trial/tabular_privacy.py:829-834 | suppression removes whole classes: a kept class has its full size, a small one disappears |
| GlobalRecoding.KeptIsKAnonymous | src/anonymization_trial/tabular_privacy.py:829-834 | every kept table is k-anonymous |
| GlobalRecoding.GeneralizeWithHierarchies | src/anonymization_trial/tabular_privacy.py:787-841 | every outcome: the first failing input check, no admissible vector, a refused audit exactly for empty or repeated columns, and otherwise the optimal selection: the rows generalized at the chosen levels, in order, without exactly those that fewer than k share, within the suppression bound |
| Microaggregation.CodeRows | src/anonymization_trial/tabular_privacy.py:979-993 | codes every cell into the bounds declared for its own column, or reports the first cell in order that is not a number or whose bounds are inverted |
| Microaggregation.CodedWithinBound | src/anonymization_trial/tabular_privacy.py:987-992 | coding puts a value within its bounds and leaves one already within them alone |
| Microaggregation.LexLeqSpelled | src/anonymization_trial/tabular_privacy.py:994 | records are ordered by the first numeric column in which they differ |
| Microaggregation.SortIsStable | src/anonymization_trial/tabular_privacy.py:994 | records with equal numbers keep the order of the source, which decides the cluster they fall into |
| Microaggregation.MakeClusters | src/anonymization_trial/tabular_privacy.py:995-997 | slicing and merging a short tail gives the specification's clusters |
| Microaggregation.ClustersPartition | src/anonymization_trial/tabular_privacy.py:995-997 | clusters partition the sorted records in order, with k to 2k - 1 each |
| Microaggregation.WriteMeans | src/anonymization_trial/tabular_privacy.py:998-1003 | the in-place loops write each column's cluster mean into every record of the cluster |
| Microaggregation.AggregateConservesSums | src/anonymization_trial/tabular_privacy.py:998-1003 | every column sum of the coded data is conserved exactly |
| Microaggregation.ReleasedNumbersWithinBounds | src/anonymization_trial/tabular_privacy.py:990-1003 | every released mean lies within the coding bounds of its column |
| Microaggregation.AggregateKeepsRows | src/anonymization_trial/tabular_privacy.py:994-1003 | the released records are a sorted permutation of the coded ones, changed in numeric columns only |
| Microaggregation.NumericColumnsGiveKAnonymity | src/anonymization_trial/tabular_privacy.py:994-1012 | when the quasi-identifiers are the numeric columns the release is k-anonymous and the final check cannot fail |
| Microaggregation.AveragesAreKAnonymous | src/anonymization_trial/tabular_privacy.py:998-1003 | any key read off the averaged columns has classes of at least k records |
| Microaggregation.Microaggregate | src/anonymization_trial/tabular_privacy.py:957-1012 | every outcome: the first failing check of parameters, records, columns, record count and cells, repeated columns, a release that is not k-anonymous, and otherwise the averaged records: a permutation of the sources, numeric cells within their columns' bounds, other cells unchanged, each row sharing its quasi-identifiers with at least k |
| DicomFormat.FindSyntax | src/anonymization_trial/multimodal.py:339-353 | the loop over meta elements detects the declared transfer syntax or reports the first malformed element; a file without the letters DICM at offset 128 is refused |
| DicomFormat.Elements | src/anonymization_trial/multimodal.py:364-405 | the parser loop yields the specification's located elements, or its error |
| DicomRoundTrip.EncodedIsParsed | src/anonymization_trial/multimodal.py:408-425 | whatever follows, an encoded element parses back to its tag, VR and even-padded value, with its own header size |
| DicomRoundTrip.RoundTrip | src/anonymization_trial/multimodal.py:316-425 | a well-formed element list encoded under its declared syntax parses back, in all three forms |
| DicomRoundTrip.ParsesBackIffReadable | src/anonymization_trial/multimodal.py:370-374 | an element that has a form parses back if and only if it is not group 0x0200 in big-endian form |
| DicomRoundTrip.GroupMisread | src/anonymization_trial/multimodal.py:370-374 | counterexample: a big-endian element (0200,0010) is read back as (0002,1000) |
| DicomRoundTrip.ParsedIsEncoded | src/anonymization_trial/multimodal.py:364-425 | an even-length element re-encodes to the bytes it was parsed from |
| DicomRoundTrip.AcceptedFileIsTiled | src/anonymization_trial/multimodal.py:364-405 | the elements of an accepted file tile it from offset 132 without gap or overlap |
| DicomRoundTrip.EncodedLayout | src/anonymization_trial/multimodal.py:408-425 | where tag, value representation, length and padded value stand in an encoded element, in each form |
| DicomRoundTrip.FieldsAreWeighed | src/anonymization_trial/multimodal.py:370-399 | tags and lengths are the numbers of their bytes, the first byte weighing least in little-endian and most in big-endian form |
| DicomRoundTrip.StripRightSpelled | src/anonymization_trial/multimodal.py:464 | stripping removes the trailing spaces and NULs, all of them and nothing else |
| DicomRoundTrip.AsciiTextSpelled | src/anonymization_trial/multimodal.py:349-351 | the declared name is read byte by byte, leaving out the bytes that are not ASCII |
| DicomRoundTrip.PaddingSpelled | src/anonymization_trial/multimodal.py:417-418 | an odd value gets one byte more, a space for text and a NUL otherwise, which stripping takes away again |
| DicomRoundTrip.ImplicitText | src/anonymization_trial/multimodal.py:300-308 | the six elements that are text in implicit form |
| DicomRoundTrip.SyntaxDetected | src/anonymization_trial/multimodal.py:339-353 | syntax detection on an encoded meta group finds the syntax it declares |
| DicomRedaction.Redact | src/anonymization_trial/multimodal.py:451-510 | the loop produces the specification's output and count, or the first error of either kind; a file that gets through has no private element that shows a policy literal, and one refused for that has |
| DicomRedaction.OutputElement | src/anonymization_trial/multimodal.py:465-505 | element by element: same tag and VR; same bytes where nothing matched; else the padded replacement |
| DicomRedaction.TextChange | src/anonymization_trial/multimodal.py:464-487 | a text element changes exactly when a pattern occurs in its stripped text, and then to the replaced text, counting the spans found |
| DicomRedaction.BinaryChange | src/anonymization_trial/multimodal.py:488-505 | of the elements without text only pixel data under a compressed transfer syntax changes, to what the pixel redactor makes of it; all others are kept |
| DicomRedaction.NoLiteralIsPublished | src/anonymization_trial/multimodal.py:502-505 | in a file that is redacted, no element of an odd group without text holds a policy literal anywhere in its value |
| DicomRedaction.LiteralIsWhyRefused | src/anonymization_trial/multimodal.py:502-504 | and a file is refused for that only when some element does |
| DicomRedaction.CountIsTheSum | src/anonymization_trial/multimodal.py:471-490 | the count is the sum of the replacements made, element by element |
| DicomRedaction.ZeroMatchesKeepTheFile | src/anonymization_trial/multimodal.py:470-507 | with uncompressed pixels a count of zero means output equals input |
| DicomRedaction.SyntaxSurvives | src/anonymization_trial/multimodal.py:339-353 | an output whose first syntax element was kept still declares the same transfer syntax, whatever becomes of later ones |
| DicomRedaction.OutputDeclares | src/anonymization_trial/multimodal.py:339-353 | every output declares exactly the rewritten text of the first syntax element that detection meets |
| DicomRedaction.PiecesAreTheSource | src/anonymization_trial/multimodal.py:458-507 | the pieces handled by the loop concatenate to the source and are its parsed elements |
| DicomReparse.ReadAlike | src/anonymization_trial/multimodal.py:364-405 | an element reads the same under another transfer syntax if and only if both stand for one encoding, it is a meta element, or both are explicit and its tag and length bytes are the same in either order |
| DicomReparse.OutputParsesIff | src/anonymization_trial/multimodal.py:364-510 | redacted bytes parse to the intended elements under another syntax if and only if every one of them reads the same under it |
| DicomReparse.RedactionKeepsStructure | src/anonymization_trial/multimodal.py:339-510 | the source parses to its elements, and the output to the intended ones if and only if each reads the same under the transfer syntax that the output declares |
| DicomReparse.RewrittenSyntaxIsMisread | src/anonymization_trial/multimodal.py:451-510 | counterexample: a policy replaces the text of the implicit transfer syntax, and the accession number after it comes back with another value representation, for every such pseudonym |
| Publication.OutputRoot.CleanStaleStages | src/anonymization_trial/pipeline.py:160-167 | removes every directory named as a stage, and nothing else: files and links of that name stay |
| Publication.OutputRoot.Clear | src/anonymization_trial/pipeline.py:193-199 | deletes everything but the stage, only while no marker stands; a corpus is half deleted on the way |
| Publication.OutputRoot.Publish | src/anonymization_trial/pipeline.py:170-217 | swaps the sealed corpus in and writes the marker last; refuses, with the marker already gone, when the staged bytes changed |
| Publication.OutputRoot.Run | src/anonymization_trial/pipeline.py:250-342 | an attempt as the crash theorems take it: without a successful verification it only stages, and marker and corpus stay; else it seals, and leaves either only the corpus with the marker of that seal, or the old corpus without a marker |
| PublicationSafety.SwapsOntoNothing | src/anonymization_trial/pipeline.py:193-200 | wherever a run swaps a corpus in, it is the sealed one, and the directory holds the run's stage and nothing else |
| PublicationSafety.CrashIsSafe | src/anonymization_trial/pipeline.py:170-217 | cut after any call, a run leaves a marker only over the corpus whose sealed digest it names |
| PublicationSafety.RejectionIsSafe | src/anonymization_trial/pipeline.py:250-342 | an attempt that never gets to its seal adds no digest to those that can be ready |
| PublicationSafety.AnySequenceOfRunsIsSafe | src/anonymization_trial/pipeline.py:250-342 | over any sequence of attempts, each cut anywhere, a marker stands only over a whole corpus with its digest, sealed after a verification by an attempt that got that far, or before |
| PublicationSafety.PowerLossIsSafe | src/anonymization_trial/pipeline.py:170-217 | one run from a synced directory, cut anywhere: every surviving subset and order of the updates since the last directory fsync is safe |
| PublicationSafety.SettledStartsSurvivePowerLoss | src/anonymization_trial/pipeline.py:184-217 | any sequence of runs, each cut anywhere, is safe against power loss at any point when none starts while a removal of the marker is pending |
| PublicationSafety.NextRunSurvivesPowerLossIffSettled | src/anonymization_trial/pipeline.py:184-217 | after any such sequence, a further run is safe wherever it is cut if and only if no removal of the marker is pending when it starts |
| PublicationSafety.TwoCutRunsCanBeUnsafe | src/anonymization_trial/pipeline.py:184-217 | counterexample: run 1 stages and is cut before the fsync of the marker's removal; run 2 replaces the stale stage, deletes the old corpus, swaps its own in and is cut; power loss leaves the old marker over the new corpus |
| ContextualGraph.ReadEdges | src/anonymization_trial/contextual_graph.py:204-238 | accepts exactly well-formed, distinct edges over known typed nodes, and the adjacency is their relation |
| ContextualGraph.CheckNodes | src/anonymization_trial/contextual_graph.py:226-238 | the nodes pass exactly when every end of an edge that is named as a subject or an identity is a listed one |
| ContextualGraph.Search | src/anonymization_trial/contextual_graph.py:243-252 | terminates; a node has a distance exactly when a directed path leads to it, and the distance is the least path length |
| ContextualGraph.NoShorterPath | src/anonymization_trial/contextual_graph.py:243-252 | once every queued node is expanded, no path is shorter than the recorded distance |
| ContextualGraph.Expand | src/anonymization_trial/contextual_graph.py:248-252 | following one node's edges keeps the queue ordered by distance and at most one step ahead |
| ContextualAudit.ReadRows | src/anonymization_trial/contextual_graph.py:66-91 | accepts exactly non-empty lists of rows with distinct non-empty identifiers and non-empty clues |
| ContextualAudit.Reachability | src/anonymization_trial/contextual_graph.py:240-265 | each subject's reached identities, the number of such pairs, and the greatest of their shortest distances |
| ContextualAudit.JudgeOne | src/anonymization_trial/contextual_graph.py:302-319 | the branches classify a subject by the number of identities it is matched to: by relationships first, else by most shared clues at the threshold |
| ContextualAudit.WinnersAreIdentities | src/anonymization_trial/contextual_graph.py:308 | the number of best scores is the number of distinct identities that have it |
| ContextualAudit.UnmatchedIff | src/anonymization_trial/contextual_graph.py:310-315 | a subject is matched to nobody exactly when it reaches no identity and every score is below the threshold |
| ContextualAudit.InferredSpelled | src/anonymization_trial/contextual_graph.py:310-319 | inferred are the subjects for whom exactly one identity is named: the only one a path leads to, or, where no path leads to any, the only one that shares most clues and enough of them; clear are those that no path and no share at the threshold leads anywhere |
| ContextualAudit.Judge | src/anonymization_trial/contextual_graph.py:295-319 | inferred, ambiguous and clear count the subjects of each kind; two-hop paths count distinct subject, clue, identity triples; the maximum share is attained |
| ContextualAudit.AuditProfiles | src/anonymization_trial/contextual_graph.py:287-321 | the verdict is clear exactly when no subject reaches an identity and all scores are below the threshold; inferred and clear count the subjects for whom one identity, or none, can be named; the three counts add up to the subjects |
| ContextualAudit.CountsAddUp | src/anonymization_trial/contextual_graph.py:310-319 | every subject is counted exactly once |
| ContextualAudit.NobodyMatchedIffSafe | src/anonymization_trial/contextual_graph.py:321 | nothing inferred and nothing ambiguous is the same as safety spelled out over paths and clues |
| ContextualAudit.MoreKnowledgeNeverClears | src/anonymization_trial/contextual_graph.py:268-321 | more edges, clues, people or a lower threshold never turn a blocked release into a clear one |
| ContextualAudit.Audit | src/anonymization_trial/contextual_graph.py:268-321 | the whole audit on listed clues, with its refusals in order |

## Left out

- All input and output: files, CSV, JSON, SQLite and zip libraries, file locks and fsync as system calls, OCR, PDF and DOCX carriers. Files are sequences or abstract directory states.
- SHA-256, Unicode NFC and NFD, decimal spellings of numbers and UTF-8 decoding are parameters. The laws assumed of normalization are `Unicode.Lawful`, and where named `Unicode.SlicesStay` and `Unicode.AsciiSeparates`, in `Policy.dfy`.
- Floating point: the suppression fraction, coded values and means are `real`, the `.12g` rendering is a parameter, and a JSON float is its value and the sign of zero.
- Policy.Compile: starts from typed rules and protected values; unknown keys, JSON types, the version, the `match` and `reason` fields and the `release_risk` block are not modelled.
- Sets and dictionaries are iterated in an arbitrary order; the results proved do not depend on it.
- DicomRedaction.Redact: redaction of compressed pixels and the set of matched rule identifiers are not modelled; the former is a parameter.
- BudgetLedger.StepKeepsInv: a ledger write is one step or leaves trailing text before truncation; tearing inside one write and loss of power are not modelled.
- PublicationSafety.PowerLossIsSafe: covers directory entries; durability of file contents and concurrent writers are not modelled.
- Publication.OutputRoot.Run: the transform and the verifier's verdict are a parameter, and so are the two digests.
- DpRelease.ReleaseDpCount: a query is a column and a test on its value; the choice between the two predicate forms and the digest's hex form are not modelled.
- Policy.ScreenRules: covers typed rules; unknown fields, the `match` field and JSON types are not modelled.
- LocalRecoding.LocallyGeneralize: with empty or repeated quasi-identifiers the program writes the output and its audit then fails; the model reports this as a refusal and has no output file.
- NoiseSampler.SampleTwoSidedGeometric: tapes are finite, and a sample that would read past the end has no result; the remaining mass is the vanishing 4^-R of `MassIsExact`.
- ContextualAudit.Audit: clues extracted from carriers are not modelled; `AuditProfiles` covers profiles however they were obtained. Calibration and the report's constant fields are left out.
- CorpusVerification.VerifyCorpus: a corpus is a list of text and JSON files; CSV and SQLite files, file names and byte order marks are not modelled.
- CorpusGuarantees.OwnCorporaVerifiedIffShortTextsPass: covers texts that normalization leaves alone, before and after replacement, and policies whose forms are clear of protected values; `MarkHidesPseudonym` and `AliasLosesProtected` show why. Of normalization it assumes in addition that slices of a normal text are normal (`Unicode.SlicesStay`).
- BudgetLedger.EverythingReleasedIsPrivate: all releases of a run read one table, which does not change between them.
- SQLite checks, discovery, risk metrics other than the graph verdict, command line and bundling: single-branch checks or counting over the classes modelled here.
