/** Rewriting JSON trees and the verifier's independent recomputation. */
module JsonTransform {
  import opened Results
  import opened Matching

  /** Parsed JSON. Object entries keep their order; a float is its value and the sign of zero. */
  datatype Json =
    | Null
    | Bool(b: bool)
    | Int(i: int)
    | Float(value: real, negativeZero: bool)
    | Str(s: string)
    | List(items: seq<Json>)
    | Obj(entries: seq<Member>)

  datatype Member = Member(key: string, item: Json)

  datatype JsonError = StructureTooComplex | SensitiveInSchema | LossyNumericAlias

  const MAX_DEPTH: nat := 200
  const MAX_STRING: nat := 1000000

  /** What the transform consults: the compiled patterns, the digits-only forms of the rule
      values, and the decimal spellings of a number. */
  datatype Context = Context(patterns: Patterns, ruleDigits: seq<string>, tokens: Json -> seq<string>)

  predicate IsNumber(v: Json) {
    v.Int? || v.Float?
  }

  /** Objects parsed from a file have distinct keys. */
  predicate WellFormed(v: Json) {
    match v
    case List(items) => forall x :: x in items ==> WellFormed(x)
    case Obj(entries) =>
      && (forall e :: e in entries ==> WellFormed(e.item))
      && (forall i, j :: 0 <= i < j < |entries| ==> entries[i].key != entries[j].key)
    case _ => true
  }

  // ---------- The transform, as a function ----------

  function StripZeros(s: string): string {
    if s != "" && s[0] == '0' then StripZeros(s[1..]) else s
  }

  predicate LossyUnder(digits: string, tokens: seq<string>) {
    |digits| >= 7 && digits[0] == '0' && StripZeros(digits) in tokens
  }

  /** The first spelling of the number that the patterns rewrite. */
  function NumberReplacement(c: Context, tokens: seq<string>): Option<(string, nat)> {
    if tokens == [] then None
    else
      var r := c.patterns.Replace(tokens[0]);
      if r.1 > 0 && r.0 != tokens[0] then Some(r) else NumberReplacement(c, tokens[1..])
  }

  /** The first reason to refuse a tree, depth first. */
  function Problem(c: Context, v: Json, depth: nat): Option<JsonError> {
    if depth > MAX_DEPTH then Some(StructureTooComplex)
    else
      match v
      case Str(s) => if |s| > MAX_STRING then Some(StructureTooComplex) else None
      case List(items) => ProblemInItems(c, items, depth)
      case Obj(entries) => ProblemInEntries(c, entries, depth)
      case Int(_) => NumberProblem(c, v)
      case Float(_, _) => NumberProblem(c, v)
      case _ => None
  }

  function NumberProblem(c: Context, v: Json): Option<JsonError> {
    if exists d :: d in c.ruleDigits && LossyUnder(d, c.tokens(v)) then Some(LossyNumericAlias) else None
  }

  function ProblemInItems(c: Context, items: seq<Json>, depth: nat): Option<JsonError> {
    if items == [] then None
    else
      var front := ProblemInItems(c, items[..|items| - 1], depth);
      if front.Some? then front else Problem(c, items[|items| - 1], depth + 1)
  }

  function ProblemInEntries(c: Context, entries: seq<Member>, depth: nat): Option<JsonError> {
    if entries == [] then None
    else
      var front := ProblemInEntries(c, entries[..|entries| - 1], depth);
      if front.Some? then front else EntryProblem(c, entries[|entries| - 1], depth)
  }

  function EntryProblem(c: Context, e: Member, depth: nat): Option<JsonError> {
    if |e.key| > MAX_STRING then Some(StructureTooComplex)
    else if c.patterns.Find(e.key) != [] then Some(SensitiveInSchema)
    else Problem(c, e.item, depth + 1)
  }

  /** How many spans are replaced in a tree: the sum over its leaves. */
  function Count(c: Context, v: Json): nat {
    match v
    case Str(s) => c.patterns.Replace(s).1
    case List(items) => CountItems(c, items)
    case Obj(entries) => CountEntries(c, entries)
    case Int(_) => NumberCount(c, v)
    case Float(_, _) => NumberCount(c, v)
    case _ => 0
  }

  function NumberCount(c: Context, v: Json): nat {
    match NumberReplacement(c, c.tokens(v)) case None => 0 case Some(r) => r.1
  }

  function CountItems(c: Context, items: seq<Json>): nat {
    if items == [] then 0 else CountItems(c, items[..|items| - 1]) + Count(c, items[|items| - 1])
  }

  function CountEntries(c: Context, entries: seq<Member>): nat {
    if entries == [] then 0 else CountEntries(c, entries[..|entries| - 1]) + Count(c, entries[|entries| - 1].item)
  }

  /** The verifier's own recomputation of the contract. */
  function Expected(c: Context, v: Json): Json {
    match v
    case Str(s) => Str(c.patterns.Replace(s).0)
    case List(items) => List(ExpectedItems(c, items))
    case Obj(entries) => Obj(ExpectedEntries(c, entries))
    case Int(_) => ExpectedNumber(c, v)
    case Float(_, _) => ExpectedNumber(c, v)
    case _ => v
  }

  function ExpectedItems(c: Context, items: seq<Json>): (r: seq<Json>)
    ensures |r| == |items| && forall i :: 0 <= i < |items| ==> r[i] == Expected(c, items[i])
  {
    seq(|items|, i requires 0 <= i < |items| => Expected(c, items[i]))
  }

  function ExpectedEntries(c: Context, entries: seq<Member>): (r: seq<Member>)
    ensures |r| == |entries|
    ensures forall i :: 0 <= i < |entries| ==> r[i] == Member(entries[i].key, Expected(c, entries[i].item))
  {
    seq(|entries|, i requires 0 <= i < |entries| => Member(entries[i].key, Expected(c, entries[i].item)))
  }

  function ExpectedNumber(c: Context, v: Json): Json {
    match NumberReplacement(c, c.tokens(v)) case None => v case Some(r) => Str(r.0)
  }

  // ---------- The transform, as run ----------

  method ReplaceNumber(c: Context, v: Json) returns (r: Result<(Json, nat), JsonError>)
    requires IsNumber(v)
    ensures r == match NumberProblem(c, v) case Some(e) => Err(e) case None => Ok((ExpectedNumber(c, v), NumberCount(c, v)))
  {
    var tokens := c.tokens(v);
    for i := 0 to |c.ruleDigits|
      invariant forall d :: d in c.ruleDigits[..i] ==> !LossyUnder(d, tokens)
    {
      if LossyUnder(c.ruleDigits[i], tokens) {
        return Err(LossyNumericAlias);
      }
    }
    assert c.ruleDigits[..|c.ruleDigits|] == c.ruleDigits;
    for i := 0 to |tokens|
      invariant NumberReplacement(c, tokens[i..]) == NumberReplacement(c, tokens)
    {
      assert tokens[i..][0] == tokens[i] && tokens[i..][1..] == tokens[i + 1..];
      var (replaced, count) := c.patterns.Replace(tokens[i]);
      if count > 0 && replaced != tokens[i] {
        return Ok((Str(replaced), count));
      }
    }
    return Ok((v, 0));
  }

  /** Succeeds exactly on the trees without a problem, and then yields the verifier's expected
      tree and the number of replaced spans. */
  method ReplaceJson(c: Context, v: Json, depth: nat) returns (r: Result<(Json, nat), JsonError>)
    ensures r == match Problem(c, v, depth) case Some(e) => Err(e) case None => Ok((Expected(c, v), Count(c, v)))
    decreases v
  {
    if depth > MAX_DEPTH {
      return Err(StructureTooComplex);
    }
    match v {
      case Str(s) =>
        if |s| > MAX_STRING {
          return Err(StructureTooComplex);
        }
        var (replaced, count) := c.patterns.Replace(s);
        return Ok((Str(replaced), count));
      case List(items) =>
        var done := ReplaceItems(c, items, depth);
        return match done case Err(e) => Err(e) case Ok(d) => Ok((List(d.0), d.1));
      case Obj(entries) =>
        var done := ReplaceEntries(c, entries, depth);
        return match done case Err(e) => Err(e) case Ok(d) => Ok((Obj(d.0), d.1));
      case Int(_) =>
        r := ReplaceNumber(c, v);
      case Float(_, _) =>
        r := ReplaceNumber(c, v);
      case Null =>
        return Ok((v, 0));
      case Bool(_) =>
        return Ok((v, 0));
    }
  }

  method ReplaceItems(c: Context, items: seq<Json>, depth: nat) returns (r: Result<(seq<Json>, nat), JsonError>)
    requires depth <= MAX_DEPTH
    ensures r == match ProblemInItems(c, items, depth)
      case Some(e) => Err(e)
      case None => Ok((ExpectedItems(c, items), CountItems(c, items)))
    decreases items
  {
    hide Problem, Expected, Count;
    var output: seq<Json> := [];
    var count: nat := 0;
    for i := 0 to |items|
      invariant ProblemInItems(c, items[..i], depth) == None
      invariant count == CountItems(c, items[..i])
      invariant output == ExpectedItems(c, items)[..i]
    {
      var updated := ReplaceJson(c, items[i], depth + 1);
      assert items[..i + 1][..i] == items[..i];
      if updated.Err? {
        ItemsProblemPersists(c, items, i + 1, depth);
        return Err(updated.error);
      }
      output := output + [updated.value.0];
      count := count + updated.value.1;
    }
    assert items[..|items|] == items;
    assert output == ExpectedItems(c, items);
    return Ok((output, count));
  }

  method ReplaceEntries(c: Context, entries: seq<Member>, depth: nat) returns (r: Result<(seq<Member>, nat), JsonError>)
    requires depth <= MAX_DEPTH
    ensures r == match ProblemInEntries(c, entries, depth)
      case Some(e) => Err(e)
      case None => Ok((ExpectedEntries(c, entries), CountEntries(c, entries)))
    decreases entries
  {
    hide Problem, EntryProblem, Expected, Count;
    var output: seq<Member> := [];
    var count: nat := 0;
    for i := 0 to |entries|
      invariant ProblemInEntries(c, entries[..i], depth) == None
      invariant count == CountEntries(c, entries[..i])
      invariant output == ExpectedEntries(c, entries)[..i]
    {
      var updated := ReplaceEntry(c, entries[i], depth);
      assert entries[..i + 1][..i] == entries[..i];
      if updated.Err? {
        EntriesProblemPersists(c, entries, i + 1, depth);
        return Err(updated.error);
      }
      output := output + [updated.value.0];
      count := count + updated.value.1;
    }
    assert entries[..|entries|] == entries;
    assert output == ExpectedEntries(c, entries);
    return Ok((output, count));
  }

  /** One object member: the key is checked and kept, the value rewritten. */
  method ReplaceEntry(c: Context, e: Member, depth: nat) returns (r: Result<(Member, nat), JsonError>)
    requires depth <= MAX_DEPTH
    ensures r == match EntryProblem(c, e, depth)
      case Some(error) => Err(error)
      case None => Ok((Member(e.key, Expected(c, e.item)), Count(c, e.item)))
    decreases e
  {
    if |e.key| > MAX_STRING {
      return Err(StructureTooComplex);
    }
    if c.patterns.Find(e.key) != [] {
      return Err(SensitiveInSchema);
    }
    var updated := ReplaceJson(c, e.item, depth + 1);
    return match updated case Err(error) => Err(error) case Ok(u) => Ok((Member(e.key, u.0), u.1));
  }

  lemma ItemsProblemPersists(c: Context, items: seq<Json>, n: nat, depth: nat)
    requires n <= |items| && ProblemInItems(c, items[..n], depth).Some?
    ensures ProblemInItems(c, items, depth) == ProblemInItems(c, items[..n], depth)
    decreases |items|
  {
    if n < |items| {
      assert items[..|items| - 1][..n] == items[..n];
      ItemsProblemPersists(c, items[..|items| - 1], n, depth);
    } else {
      assert items[..n] == items;
    }
  }

  lemma EntriesProblemPersists(c: Context, entries: seq<Member>, n: nat, depth: nat)
    requires n <= |entries| && ProblemInEntries(c, entries[..n], depth).Some?
    ensures ProblemInEntries(c, entries, depth) == ProblemInEntries(c, entries[..n], depth)
    decreases |entries|
  {
    if n < |entries| {
      assert entries[..|entries| - 1][..n] == entries[..n];
      EntriesProblemPersists(c, entries[..|entries| - 1], n, depth);
    } else {
      assert entries[..n] == entries;
    }
  }

  // ---------- What is refused, what is replaced, what is counted ----------

  /** `v` stands in the tree, this many levels down. */
  ghost predicate IsPart(root: Json, v: Json, depth: nat)
    decreases depth
  {
    if depth == 0 then root == v
    else
      match root
      case List(items) => exists x :: x in items && IsPart(x, v, depth - 1)
      case Obj(entries) => exists e :: e in entries && IsPart(e.item, v, depth - 1)
      case _ => false
  }

  /** The spelling is the number without the leading zeros of a policy value of seven digits or more. */
  ghost predicate IsLossy(digits: string, token: string) {
    && 7 <= |digits| && |token| < |digits| && (token != "" ==> token[0] != '0')
    && (forall i :: 0 <= i < |digits| - |token| ==> digits[i] == '0') && digits[|digits| - |token|..] == token
  }

  lemma {:induction false} StripZerosSpelled(s: string)
    ensures var r := StripZeros(s);
      && |r| <= |s| && (r != "" ==> r[0] != '0') && s[|s| - |r|..] == r
      && forall i :: 0 <= i < |s| - |r| ==> s[i] == '0'
  {
    if s != "" && s[0] == '0' {
      StripZerosSpelled(s[1..]);
      var r := StripZeros(s[1..]);
      forall i | 0 <= i < |s| - |r| ensures s[i] == '0' {
        assert i > 0 ==> s[1..][i - 1] == '0';
      }
    }
  }

  lemma LossySpelled(digits: string, token: string)
    ensures 7 <= |digits| ==> (IsLossy(digits, token) <==> digits[0] == '0' && StripZeros(digits) == token)
  {
    StripZerosSpelled(digits);
  }

  ghost predicate HasLossySpelling(c: Context, v: Json) {
    exists digits, token :: digits in c.ruleDigits && token in c.tokens(v) && IsLossy(digits, token)
  }

  lemma NumberProblemSpelled(c: Context, v: Json)
    ensures NumberProblem(c, v) == if HasLossySpelling(c, v) then Some(LossyNumericAlias) else None
  {
    hide StripZeros, IsLossy;
    forall digits, token
      ensures 7 <= |digits| ==> (IsLossy(digits, token) <==> digits[0] == '0' && StripZeros(digits) == token)
      ensures IsLossy(digits, token) ==> 7 <= |digits|
    {
      LossySpelled(digits, token);
      LossyIsLong(digits, token);
    }
    if d :| d in c.ruleDigits && LossyUnder(d, c.tokens(v)) {
      assert IsLossy(d, StripZeros(d));
    }
  }

  lemma LossyIsLong(digits: string, token: string)
    ensures IsLossy(digits, token) ==> 7 <= |digits|
  {
  }

  /** What is wrong with this part of a tree, `depth` levels down. */
  ghost predicate IsWrong(c: Context, v: Json, depth: nat, e: JsonError) {
    match e
    case StructureTooComplex =>
      || depth > 200 || (v.Str? && |v.s| > 1000000)
      || (v.Obj? && exists m :: m in v.entries && |m.key| > 1000000)
    case SensitiveInSchema => v.Obj? && exists m :: m in v.entries && c.patterns.Find(m.key) != []
    case LossyNumericAlias => IsNumber(v) && HasLossySpelling(c, v)
  }

  ghost predicate SomethingIsWrong(c: Context, root: Json, depth: nat, e: JsonError) {
    exists v, d: nat :: IsPart(root, v, d) && IsWrong(c, v, depth + d, e)
  }

  lemma WrongBelow(c: Context, root: Json, child: Json, depth: nat, e: JsonError)
    requires root.List? ==> child in root.items
    requires root.Obj? ==> exists m :: m in root.entries && m.item == child
    requires (root.List? || root.Obj?) && SomethingIsWrong(c, child, depth + 1, e)
    ensures SomethingIsWrong(c, root, depth, e)
  {
    hide IsWrong;
    var v, d: nat :| IsPart(child, v, d) && IsWrong(c, v, depth + 1 + d, e);
    assert IsPart(root, v, d + 1);
    assert depth + (d + 1) == depth + 1 + d;
  }

  lemma WrongHere(c: Context, v: Json, depth: nat, e: JsonError)
    requires IsWrong(c, v, depth, e)
    ensures SomethingIsWrong(c, v, depth, e)
  {
    assert IsPart(v, v, 0) && IsWrong(c, v, depth + 0, e);
  }

  lemma {:induction false} ItemOfProblem(c: Context, items: seq<Json>, depth: nat) returns (i: nat)
    requires ProblemInItems(c, items, depth).Some?
    ensures i < |items| && Problem(c, items[i], depth + 1) == ProblemInItems(c, items, depth)
    decreases |items|
  {
    var n := |items| - 1;
    if ProblemInItems(c, items[..n], depth).Some? {
      i := ItemOfProblem(c, items[..n], depth);
    } else {
      i := n;
    }
  }

  lemma {:induction false} EntryOfProblem(c: Context, entries: seq<Member>, depth: nat) returns (i: nat)
    requires ProblemInEntries(c, entries, depth).Some?
    ensures i < |entries| && EntryProblem(c, entries[i], depth) == ProblemInEntries(c, entries, depth)
    decreases |entries|
  {
    var n := |entries| - 1;
    if ProblemInEntries(c, entries[..n], depth).Some? {
      i := EntryOfProblem(c, entries[..n], depth);
    } else {
      i := n;
    }
  }

  /** A tree is refused only for something that is wrong with a part of it, ... */
  lemma {:induction false} ProblemIsWrong(c: Context, v: Json, depth: nat)
    requires Problem(c, v, depth).Some?
    ensures SomethingIsWrong(c, v, depth, Problem(c, v, depth).value)
    decreases v
  {
    hide SomethingIsWrong, IsPart, HasLossySpelling;
    var e := Problem(c, v, depth).value;
    if depth > MAX_DEPTH {
      WrongHere(c, v, depth, e);
    } else if v.List? {
      var i := ItemOfProblem(c, v.items, depth);
      ProblemIsWrong(c, v.items[i], depth + 1);
      WrongBelow(c, v, v.items[i], depth, e);
    } else if v.Obj? {
      var i := EntryOfProblem(c, v.entries, depth);
      var m := v.entries[i];
      if |m.key| > MAX_STRING || c.patterns.Find(m.key) != [] {
        WrongHere(c, v, depth, e);
      } else {
        ProblemIsWrong(c, m.item, depth + 1);
        WrongBelow(c, v, m.item, depth, e);
      }
    } else {
      NumberProblemSpelled(c, v);
      WrongHere(c, v, depth, e);
    }
  }

  lemma {:induction false} NoProblemInItem(c: Context, items: seq<Json>, depth: nat, i: nat)
    requires ProblemInItems(c, items, depth).None? && i < |items|
    ensures Problem(c, items[i], depth + 1).None?
    decreases |items|
  {
    if i < |items| - 1 {
      NoProblemInItem(c, items[..|items| - 1], depth, i);
    }
  }

  lemma {:induction false} NoProblemInEntry(c: Context, entries: seq<Member>, depth: nat, i: nat)
    requires ProblemInEntries(c, entries, depth).None? && i < |entries|
    ensures EntryProblem(c, entries[i], depth).None?
    decreases |entries|
  {
    if i < |entries| - 1 {
      NoProblemInEntry(c, entries[..|entries| - 1], depth, i);
    }
  }

  lemma NothingWrongHere(c: Context, v: Json, depth: nat, e: JsonError)
    requires Problem(c, v, depth).None?
    ensures !IsWrong(c, v, depth, e)
  {
    hide HasLossySpelling, Patterns.Find;
    NumberProblemSpelled(c, v);
    if v.Obj? {
      forall m | m in v.entries ensures |m.key| <= MAX_STRING && c.patterns.Find(m.key) == [] {
        var i :| 0 <= i < |v.entries| && v.entries[i] == m;
        NoProblemInEntry(c, v.entries, depth, i);
      }
    }
  }

  /** ... and accepted only when nothing is wrong with any. */
  lemma {:induction false} NoProblemNothingWrong(c: Context, root: Json, depth: nat, v: Json, d: nat, e: JsonError)
    requires Problem(c, root, depth).None? && IsPart(root, v, d)
    ensures !IsWrong(c, v, depth + d, e)
    decreases d
  {
    hide IsWrong;
    if d == 0 {
      NothingWrongHere(c, root, depth, e);
    } else if root.List? {
      var x :| x in root.items && IsPart(x, v, d - 1);
      var i :| 0 <= i < |root.items| && root.items[i] == x;
      NoProblemInItem(c, root.items, depth, i);
      NoProblemNothingWrong(c, x, depth + 1, v, d - 1, e);
    } else {
      var m :| m in root.entries && IsPart(m.item, v, d - 1);
      var i :| 0 <= i < |root.entries| && root.entries[i] == m;
      NoProblemInEntry(c, root.entries, depth, i);
      NoProblemNothingWrong(c, m.item, depth + 1, v, d - 1, e);
    }
  }

  lemma ProblemIffWrong(c: Context, root: Json, depth: nat)
    ensures Problem(c, root, depth).None? <==> forall e :: !SomethingIsWrong(c, root, depth, e)
    ensures Problem(c, root, depth).Some? ==> SomethingIsWrong(c, root, depth, Problem(c, root, depth).value)
  {
    hide Problem, IsPart, IsWrong;
    if Problem(c, root, depth).Some? {
      ProblemIsWrong(c, root, depth);
    } else {
      forall e | SomethingIsWrong(c, root, depth, e) ensures false {
        var v, d: nat :| IsPart(root, v, d) && IsWrong(c, v, depth + d, e);
        NoProblemNothingWrong(c, root, depth, v, d, e);
      }
    }
  }

  /** Replacing the matches of the spelling, if any, leaves it as it is. */
  ghost predicate StaysSame(c: Context, token: string) {
    c.patterns.Find(token) == [] || c.patterns.Replace(token).0 == token
  }

  /** The spelling that replaces a number is the first that is changed when its matches are replaced. */
  lemma {:induction false} NumberReplacementSpelled(c: Context, tokens: seq<string>) returns (k: nat)
    ensures k <= |tokens| && forall j :: 0 <= j < k ==> StaysSame(c, tokens[j])
    ensures k == |tokens| ==> NumberReplacement(c, tokens) == None
    ensures k < |tokens| ==>
      && !StaysSame(c, tokens[k])
      && NumberReplacement(c, tokens) == Some((c.patterns.Replace(tokens[k]).0, |c.patterns.Find(tokens[k])|))
  {
    k := 0;
    if tokens != [] {
      ChangedWhenCounted(c, tokens[0]);
      hide StaysSame, Patterns.Find, Patterns.Replace;
      if StaysSame(c, tokens[0]) {
        k := NumberReplacementSpelled(c, tokens[1..]);
        assert forall j :: 0 < j < |tokens| ==> tokens[j] == tokens[1..][j - 1];
        k := k + 1;
      }
    }
  }

  lemma ChangedWhenCounted(c: Context, t: string)
    ensures StaysSame(c, t) <==> !(c.patterns.Replace(t).1 > 0 && c.patterns.Replace(t).0 != t)
    ensures c.patterns.Replace(t).1 == |c.patterns.Find(t)|
  {
    c.patterns.FindsNothingIffNoMatch(t);
  }

  /** The count of a leaf: one for each span found in a string, those of the spelling that replaces a
      number, nothing else. */
  lemma CountOfLeaf(c: Context, v: Json)
    requires !v.List? && !v.Obj?
    ensures Count(c, v) ==
      if v.Str? then |c.patterns.Find(v.s)|
      else if IsNumber(v) && NumberReplacement(c, c.tokens(v)).Some? then NumberReplacement(c, c.tokens(v)).value.1
      else 0
  {
    hide NumberReplacement, Patterns.Find;
  }

  /** And it adds up over the tree. */
  lemma {:induction false} CountAddsUp(c: Context, v: Json, a: seq<Json>, b: seq<Json>)
    ensures CountItems(c, [v]) == Count(c, v) && CountItems(c, []) == 0
    ensures CountItems(c, a + b) == CountItems(c, a) + CountItems(c, b)
    ensures Count(c, List(a)) == CountItems(c, a)
    decreases |b|
  {
    hide NumberReplacement, Patterns.Replace;
    assert [v][..0] == [];
    if b == [] {
      assert a + b == a;
    } else {
      var n := |b| - 1;
      CountAddsUp(c, v, a, b[..n]);
      assert (a + b)[..|a + b| - 1] == a + b[..n];
    }
  }

  lemma {:induction false} CountOfEntries(c: Context, entries: seq<Member>)
    ensures Count(c, Obj(entries)) == CountItems(c, seq(|entries|, i requires 0 <= i < |entries| => entries[i].item))
  {
    hide NumberReplacement, Patterns.Replace;
    var items := seq(|entries|, i requires 0 <= i < |entries| => entries[i].item);
    if entries != [] {
      var n := |entries| - 1;
      CountOfEntries(c, entries[..n]);
      assert items[..n] == seq(n, i requires 0 <= i < n => entries[..n][i].item);
    }
  }

  // ---------- The verifier ----------

  function KeySet(entries: seq<Member>): set<string> {
    set e | e in entries :: e.key
  }

  /** Equality that also requires identical scalar types. Objects compare by key. */
  predicate TypedEqual(a: Json, b: Json) {
    match (a, b)
    case (Null, Null) => true
    case (Bool(x), Bool(y)) => x == y
    case (Int(x), Int(y)) => x == y
    case (Float(x, _), Float(y, _)) => x == y
    case (Str(x), Str(y)) => x == y
    case (List(xs), List(ys)) => |xs| == |ys| && forall i :: 0 <= i < |xs| ==> TypedEqual(xs[i], ys[i])
    case (Obj(xs), Obj(ys)) =>
      && KeySet(xs) == KeySet(ys)
      && (forall e, f :: e in xs && f in ys && e.key == f.key ==> TypedEqual(e.item, f.item))
    case _ => false
  }

  /** What a tree means: objects as mappings, floats as numbers. */
  datatype Meaning =
    | MNull
    | MBool(b: bool)
    | MInt(i: int)
    | MFloat(value: real)
    | MStr(s: string)
    | MList(items: seq<Meaning>)
    | MObj(entries: map<string, Meaning>)

  ghost function Mean(v: Json): Meaning {
    match v
    case Null => MNull
    case Bool(b) => MBool(b)
    case Int(i) => MInt(i)
    case Float(x, _) => MFloat(x)
    case Str(s) => MStr(s)
    case List(items) => MList(MeanItems(items))
    case Obj(entries) => MObj(MeanEntries(entries))
  }

  ghost function MeanItems(items: seq<Json>): (r: seq<Meaning>)
    ensures |r| == |items| && forall i :: 0 <= i < |items| ==> r[i] == Mean(items[i])
  {
    seq(|items|, i requires 0 <= i < |items| => Mean(items[i]))
  }

  ghost function MeanEntries(entries: seq<Member>): map<string, Meaning> {
    if entries == [] then map[]
    else MeanEntries(entries[..|entries| - 1])[entries[|entries| - 1].key := Mean(entries[|entries| - 1].item)]
  }

  lemma MeanEntry(entries: seq<Member>, e: Member)
    requires WellFormed(Obj(entries)) && e in entries
    ensures e.key in MeanEntries(entries) && MeanEntries(entries)[e.key] == Mean(e.item)
  {
    var n := |entries| - 1;
    var i :| 0 <= i <= n && entries[i] == e;
    if i < n {
      assert entries[..n][i] == e;
      assert forall f :: f in entries[..n] ==> f in entries;
      MeanEntry(entries[..n], e);
    }
  }

  lemma MeanKeys(entries: seq<Member>)
    ensures MeanEntries(entries).Keys == KeySet(entries)
  {
    if entries != [] {
      var n := |entries| - 1;
      MeanKeys(entries[..n]);
      assert entries == entries[..n] + [entries[n]];
      assert KeySet(entries) == KeySet(entries[..n]) + {entries[n].key};
    }
  }

  lemma ListsEqual(xs: seq<Json>, ys: seq<Json>)
    requires |xs| == |ys| ==> forall i :: 0 <= i < |xs| ==> (TypedEqual(xs[i], ys[i]) <==> Mean(xs[i]) == Mean(ys[i]))
    ensures TypedEqual(List(xs), List(ys)) <==> MeanItems(xs) == MeanItems(ys)
  {
    if MeanItems(xs) == MeanItems(ys) {
      assert |xs| == |MeanItems(xs)| == |MeanItems(ys)| == |ys|;
      forall i | 0 <= i < |xs| ensures TypedEqual(xs[i], ys[i]) {
        assert Mean(xs[i]) == MeanItems(xs)[i] == MeanItems(ys)[i] == Mean(ys[i]);
      }
    }
  }

  lemma ObjectsEqual(xs: seq<Member>, ys: seq<Member>)
    requires WellFormed(Obj(xs)) && WellFormed(Obj(ys))
    requires forall e, f :: e in xs && f in ys && e.key == f.key ==>
      && e.key in MeanEntries(xs) && e.key in MeanEntries(ys)
      && (TypedEqual(e.item, f.item) <==> MeanEntries(xs)[e.key] == MeanEntries(ys)[e.key])
    ensures TypedEqual(Obj(xs), Obj(ys)) <==> MeanEntries(xs) == MeanEntries(ys)
  {
    hide MeanEntries, WellFormed;
    var mx, my := MeanEntries(xs), MeanEntries(ys);
    MeanKeys(xs);
    MeanKeys(ys);
    if TypedEqual(Obj(xs), Obj(ys)) {
      forall k | k in mx ensures mx[k] == my[k] {
        var e :| e in xs && e.key == k;
        var f :| f in ys && f.key == k;
        assert TypedEqual(e.item, f.item);
      }
    }
  }

  /** Typed equality holds exactly between trees of the same meaning. */
  lemma {:induction false} TypedEqualIffSameMeaning(a: Json, b: Json)
    requires WellFormed(a) && WellFormed(b)
    ensures TypedEqual(a, b) <==> Mean(a) == Mean(b)
    decreases a
  {
    match (a, b) {
      case (List(xs), List(ys)) =>
        if |xs| == |ys| {
          forall i | 0 <= i < |xs| ensures TypedEqual(xs[i], ys[i]) <==> Mean(xs[i]) == Mean(ys[i]) {
            assert xs[i] in xs && ys[i] in ys;
            TypedEqualIffSameMeaning(xs[i], ys[i]);
          }
        }
        ListsEqual(xs, ys);
      case (Obj(xs), Obj(ys)) =>
        forall e, f | e in xs && f in ys && e.key == f.key
          ensures e.key in MeanEntries(xs) && e.key in MeanEntries(ys)
          ensures TypedEqual(e.item, f.item) <==> MeanEntries(xs)[e.key] == MeanEntries(ys)[e.key]
        {
          MeanEntry(xs, e);
          MeanEntry(ys, f);
          TypedEqualIffSameMeaning(e.item, f.item);
        }
        ObjectsEqual(xs, ys);
      case _ =>
    }
  }

  /** Decoded keys and values of a tree, with every spelling of its numbers. */
  function Strings(c: Context, v: Json): seq<string> {
    match v
    case Str(s) => [s]
    case List(items) => StringsOfItems(c, items)
    case Obj(entries) => StringsOfEntries(c, entries)
    case Int(_) => c.tokens(v)
    case Float(_, _) => c.tokens(v)
    case _ => []
  }

  function StringsOfItems(c: Context, items: seq<Json>): seq<string> {
    if items == [] then [] else Strings(c, items[0]) + StringsOfItems(c, items[1..])
  }

  function StringsOfEntries(c: Context, entries: seq<Member>): seq<string> {
    if entries == [] then []
    else [entries[0].key] + Strings(c, entries[0].item) + StringsOfEntries(c, entries[1..])
  }

  ghost predicate Accepts(c: Context, source: Json, output: Json) {
    (forall s :: s in Strings(c, output) ==> c.patterns.Find(s) == []) && TypedEqual(output, Expected(c, source))
  }

  /** The two JSON checks of corpus verification: no literal survives, and the output is the
      expected tree. */
  method VerifyJson(c: Context, source: Json, output: Json) returns (ok: bool)
    ensures ok <==> Accepts(c, source, output)
  {
    hide Strings, TypedEqual, Expected, Patterns.Find;
    var texts := Strings(c, output);
    for i := 0 to |texts|
      invariant forall s :: s in texts[..i] ==> c.patterns.Find(s) == []
    {
      if c.patterns.Find(texts[i]) != [] {
        assert texts[i] in texts;
        return false;
      }
    }
    assert texts[..|texts|] == texts;
    ok := TypedEqual(output, Expected(c, source));
  }

  /** Keys, list lengths and nesting are those of the source; leaves may differ. */
  ghost predicate SameShape(a: Json, b: Json) {
    match (a, b)
    case (List(xs), List(ys)) => |xs| == |ys| && forall i :: 0 <= i < |xs| ==> SameShape(xs[i], ys[i])
    case (Obj(xs), Obj(ys)) =>
      |xs| == |ys| && forall i :: 0 <= i < |xs| ==> xs[i].key == ys[i].key && SameShape(xs[i].item, ys[i].item)
    case _ => !a.List? && !b.List? && !a.Obj? && !b.Obj?
  }

  lemma {:induction false} ExpectedKeepsShape(c: Context, v: Json)
    ensures SameShape(v, Expected(c, v))
    ensures WellFormed(v) ==> WellFormed(Expected(c, v))
    decreases v
  {
    match v {
      case List(items) =>
        forall i | 0 <= i < |items| ensures SameShape(items[i], Expected(c, items[i]))
                                         && (WellFormed(items[i]) ==> WellFormed(Expected(c, items[i]))) {
          ExpectedKeepsShape(c, items[i]);
        }
      case Obj(entries) =>
        forall i | 0 <= i < |entries| ensures SameShape(entries[i].item, Expected(c, entries[i].item))
                                           && (WellFormed(entries[i].item) ==> WellFormed(Expected(c, entries[i].item))) {
          ExpectedKeepsShape(c, entries[i].item);
        }
      case _ =>
    }
  }

  lemma TypedEqualReflexive(v: Json)
    requires WellFormed(v)
    ensures TypedEqual(v, v)
  {
    TypedEqualIffSameMeaning(v, v);
  }

  /** What the transform produces is the expected tree, so only its strings are left to check. */
  lemma OwnOutputNeedsCleanStrings(c: Context, source: Json)
    requires WellFormed(source)
    ensures Accepts(c, source, Expected(c, source)) <==>
      forall s :: s in Strings(c, Expected(c, source)) ==> c.patterns.Clean(s)
    ensures SameShape(source, Expected(c, source))
  {
    ExpectedKeepsShape(c, source);
    TypedEqualReflexive(Expected(c, source));
    forall s | s in Strings(c, Expected(c, source))
      ensures c.patterns.Find(s) == [] <==> c.patterns.Clean(s)
    {
      c.patterns.FindsNothingIffNoMatch(s);
    }
  }

  /** Any accepted output, whoever wrote it, means the leafwise replacement of the source and
      shows no match in any decoded key, string or spelling of a number. */
  lemma AcceptedOutputIsTheReplacement(c: Context, source: Json, output: Json)
    requires WellFormed(source) && WellFormed(output)
    requires Accepts(c, source, output)
    ensures Mean(output) == Mean(Expected(c, source))
    ensures forall s :: s in Strings(c, output) ==> c.patterns.Clean(s)
  {
    ExpectedKeepsShape(c, source);
    TypedEqualIffSameMeaning(output, Expected(c, source));
    forall s | s in Strings(c, output) ensures c.patterns.Clean(s) {
      c.patterns.FindsNothingIffNoMatch(s);
    }
  }
}
