/** Noisy counts, batches of them, and the noisy histogram: what is released, with which
    probability, and how little one record can change that. */
module DpRelease {
  import opened Results
  import opened NoiseSampler
  import opened NoiseDistribution

  type Row = map<string, string>

  datatype Table = Table(fields: set<string>, rows: seq<Row>) {
    predicate Valid() {
      forall r :: r in rows ==> r.Keys == fields
    }
  }

  /** A counting query: one column and a test on its value (equality, or equality of digests). */
  datatype Query = Query(column: string, test: string -> bool, epsilon: real)

  datatype DpError = InvalidEpsilon | NoQueries | InvalidQuery | BudgetExceeded | MissingColumn | InvalidDimensions
                   | InvalidDomain | ValueOutsideDomain | NoMoreDraws

  const MIN_EPSILON: real := 0.7
  const MAX_EPSILON: real := 100.0

  predicate EpsilonOk(epsilon: real) {
    MIN_EPSILON <= epsilon <= MAX_EPSILON
  }

  /** The first terms of the exponential series, up to the fourth power. */
  function ExpSeries(x: real): real {
    1.0 + x + x * x / 2.0 + x * x * x / 6.0 + x * x * x * x / 24.0
  }

  /** Why a factor of two is within any accepted epsilon: e^epsilon is at least these terms of its
      series, which exceed two. */
  lemma TwoIsWithinExp(epsilon: real)
    requires EpsilonOk(epsilon)
    ensures 2.0 < ExpSeries(epsilon)
  {
    var x := epsilon;
    var x2 := x * x;
    var x3 := x2 * x;
    assert 0.49 == 0.7 * 0.7 <= 0.7 * x <= x2;
    assert 0.343 == 0.49 * 0.7 <= 0.49 * x <= x2 * x;
    assert 0.2401 == 0.343 * 0.7 <= 0.343 * x <= x3 * x;
  }

  function CountRows(rows: seq<Row>, q: Query): nat
    requires forall r :: r in rows ==> q.column in r
  {
    if rows == [] then 0
    else
      var n := |rows| - 1;
      assert rows[n] in rows;
      CountRows(rows[..n], q) + if q.test(rows[n][q.column]) then 1 else 0
  }

  /** The records that meet the query. */
  ghost function Meeting(rows: seq<Row>, q: Query): set<nat>
    requires forall r :: r in rows ==> q.column in r
  {
    set i: nat | i < |rows| && (assert rows[i] in rows; q.test(rows[i][q.column]))
  }

  lemma {:induction false} CountIsCardinality(rows: seq<Row>, q: Query)
    requires forall r :: r in rows ==> q.column in r
    ensures CountRows(rows, q) == |Meeting(rows, q)|
  {
    if rows == [] {
      assert Meeting(rows, q) == {};
    } else {
      var n := |rows| - 1;
      assert rows[n] in rows && forall r :: r in rows[..n] ==> r in rows;
      CountIsCardinality(rows[..n], q);
      MeetingSnoc(rows, q);
      hide Meeting;
    }
  }

  lemma MeetingSnoc(rows: seq<Row>, q: Query)
    requires rows != [] && q.column in rows[|rows| - 1]
    requires (forall r :: r in rows ==> q.column in r) && forall r :: r in rows[..|rows| - 1] ==> q.column in r
    ensures var n := |rows| - 1; var before := Meeting(rows[..n], q);
      n !in before && Meeting(rows, q) == if q.test(rows[n][q.column]) then before + {n} else before
  {
    var n := |rows| - 1;
    var before, all := Meeting(rows[..n], q), Meeting(rows, q);
    forall i: nat ensures i in all <==> if i == n then q.test(rows[n][q.column]) else i in before {
      if i < n {
        assert rows[..n][i] == rows[i];
      }
    }
  }

  /** What is answered for `count` records under `noise`: never less than zero. */
  ghost predicate IsNoisy(answer: nat, count: nat, noise: int) {
    if count + noise < 0 then answer == 0 else answer == count + noise
  }

  function Clamp(count: nat, noise: int): nat {
    if count + noise < 0 then 0 else count + noise
  }

  method ReleaseDpCount(table: Table, q: Query, source: Source) returns (r: Result<nat, DpError>)
    requires table.Valid() && source.Valid()
    modifies source
    ensures source.Valid()
    ensures !EpsilonOk(q.epsilon) ==> r == Err(InvalidEpsilon) && source.used == old(source.used)
    ensures EpsilonOk(q.epsilon) && q.column !in table.fields ==> r == Err(MissingColumn) && source.used == old(source.used)
    ensures EpsilonOk(q.epsilon) && q.column in table.fields ==>
      match Sample(source.tape[old(source.used)..])
      case None => r == Err(NoMoreDraws)
      case Some((z, n)) => r.Ok? && IsNoisy(r.value, |Meeting(table.rows, q)|, z) && source.used == old(source.used) + n
  {
    if !EpsilonOk(q.epsilon) {
      return Err(InvalidEpsilon);
    }
    if q.column !in table.fields {
      return Err(MissingColumn);
    }
    var noise := SampleTwoSidedGeometric(source);
    if noise.None? {
      return Err(NoMoreDraws);
    }
    var trueCount := CountRows(table.rows, q);
    CountIsCardinality(table.rows, q);
    return Ok(Clamp(trueCount, noise.value));
  }

  // ---------- Probability of one released count ----------

  /** Probability that a clamped count of `count` records is released as `v`. */
  function ClampMass(count: nat, v: nat): (p: real)
    ensures 0.0 < p
  {
    if v > 0 then Probability(v - count) else 2.0 * Half(count) / 3.0
  }

  /** The part of it that noise values -m..m contribute, summed value by value. */
  function PartialMass(count: nat, v: nat, m: nat): real {
    (if m == 0 then 0.0 else PartialMass(count, v, m - 1))
    + (if Clamp(count, m) == v then Probability(m) else 0.0)
    + (if m > 0 && Clamp(count, -(m as int)) == v then Probability(-(m as int)) else 0.0)
  }

  /** `ClampMass` is that sum: exact for positive outputs once the noise range covers them, and
      short by the vanishing tail 2^-m / 3 for the clamped output 0. */
  lemma {:induction false} ClampMassIsTheSum(count: nat, v: nat, m: nat)
    ensures v > 0 ==> PartialMass(count, v, m) == if Abs(v - count) <= m then ClampMass(count, v) else 0.0
    ensures v == 0 && m >= count ==> PartialMass(count, v, m) == ClampMass(count, 0) - Half(m) / 3.0
    ensures v == 0 && m < count ==> PartialMass(count, v, m) == 0.0
  {
    if m > 0 {
      ClampMassIsTheSum(count, v, m - 1);
    }
  }

  /** One record more or less changes the probability of any released count by a factor of two
      at most: pure differential privacy with loss ln 2. */
  lemma CountIsPrivate(count: nat, count': nat, v: nat)
    requires count' <= count + 1 && count <= count' + 1
    ensures ClampMass(count, v) <= 2.0 * ClampMass(count', v)
  {
    if v > 0 {
      NeighbourRatio(v - count, v - count');
    } else if count' == count + 1 {
      assert Half(count') == Half(count) / 2.0;
    } else if count == count' + 1 {
      assert Half(count) == Half(count') / 2.0;
    }
  }

  /** And the factor is attained, so the bound is tight. */
  lemma CountBoundIsTight(count: nat, v: nat)
    requires v > count
    ensures ClampMass(count + 1, v) == 2.0 * ClampMass(count, v)
  {
    assert Half(v - count) == Half(v - count - 1) / 2.0;
  }

  // ---------- Neighbouring tables ----------

  /** `more` is `fewer` with one record added somewhere. */
  ghost predicate AddsOne(fewer: Table, more: Table, i: nat, x: Row) {
    && fewer.fields == more.fields && i <= |fewer.rows|
    && more.rows == fewer.rows[..i] + [x] + fewer.rows[i..]
  }

  ghost predicate Neighbours(a: Table, b: Table) {
    exists i, x :: AddsOne(a, b, i, x) || AddsOne(b, a, i, x)
  }

  lemma CountRowsConcat(a: seq<Row>, b: seq<Row>, q: Query)
    requires forall r :: r in a ==> q.column in r
    requires forall r :: r in b ==> q.column in r
    ensures CountRows(a + b, q) == CountRows(a, q) + CountRows(b, q)
  {
    if b == [] {
      assert a + b == a;
    } else {
      var n := |b| - 1;
      assert forall r :: r in b[..n] ==> r in b;
      CountRowsConcat(a, b[..n], q);
      assert (a + b)[..|a + b| - 1] == a + b[..n];
      assert b[n] in b;
    }
  }

  lemma CountsDifferByOne(a: Table, b: Table, q: Query)
    requires a.Valid() && b.Valid() && Neighbours(a, b) && q.column in a.fields
    ensures q.column in b.fields
    ensures CountRows(a.rows, q) <= CountRows(b.rows, q) + 1 && CountRows(b.rows, q) <= CountRows(a.rows, q) + 1
  {
    var i, x :| AddsOne(a, b, i, x) || AddsOne(b, a, i, x);
    if AddsOne(a, b, i, x) {
      CountOneMore(a, b, i, x, q);
    } else {
      CountOneMore(b, a, i, x, q);
    }
  }

  lemma CountOneMore(fewer: Table, more: Table, i: nat, x: Row, q: Query)
    requires fewer.Valid() && more.Valid() && AddsOne(fewer, more, i, x) && q.column in fewer.fields
    ensures CountRows(fewer.rows, q) <= CountRows(more.rows, q) <= CountRows(fewer.rows, q) + 1
  {
    var head, tail := fewer.rows[..i], fewer.rows[i..];
    assert fewer.rows == head + tail;
    assert x in more.rows;
    CountRowsConcat(head, tail, q);
    CountRowsConcat(head + [x], tail, q);
    CountRowsConcat(head, [x], q);
    assert [x][..0] == [];
  }

  // ---------- Batches ----------

  function TotalEpsilon(queries: seq<Query>): real {
    if queries == [] then 0.0 else TotalEpsilon(queries[..|queries| - 1]) + queries[|queries| - 1].epsilon
  }

  /** A sum: it adds up over batches, and one query costs its own epsilon. */
  lemma {:induction false} TotalIsTheSum(a: seq<Query>, b: seq<Query>, q: Query)
    ensures TotalEpsilon([]) == 0.0 && TotalEpsilon([q]) == q.epsilon
    ensures TotalEpsilon(a + b) == TotalEpsilon(a) + TotalEpsilon(b)
    decreases |b|
  {
    assert [q][..0] == [];
    if b == [] {
      assert a + b == a;
    } else {
      TotalIsTheSum(a, b[..|b| - 1], q);
      assert (a + b)[..|a + b| - 1] == a + b[..|b| - 1];
    }
  }

  /** Runs the sampler `n` times, one after the other. */
  function SampleMany(tape: seq<Draw>, n: nat): (r: Option<(seq<int>, nat)>)
    ensures r.Some? ==> |r.value.0| == n && r.value.1 <= |tape|
  {
    if n == 0 then Some(([], 0))
    else
      match SampleMany(tape, n - 1)
      case None => None
      case Some((zs, used)) =>
        match Sample(tape[used..])
        case None => None
        case Some((z, k)) => SampleUses(tape[used..]); Some((zs + [z], used + k))
  }

  lemma SampleUses(tape: seq<Draw>)
    ensures Sample(tape).Some? ==> Sample(tape).value.1 <= |tape|
    decreases |tape|
  {
    if tape != [] && tape[0].bound == 4 {
      if tape[0].value == 3 {
        SampleUses(tape[1..]);
      } else if tape[0].value != 0 {
        MagnitudeUses(tape[1..], 1);
      }
    }
  }

  lemma MagnitudeUses(tape: seq<Draw>, m: nat)
    ensures Magnitude(tape, m).Some? ==> Magnitude(tape, m).value.1 <= |tape|
    decreases |tape|
  {
    if tape != [] && tape[0].bound == 2 && tape[0].value == 0 {
      MagnitudeUses(tape[1..], m + 1);
    }
  }

  ghost predicate ColumnsPresent(table: Table, queries: seq<Query>) {
    forall q :: q in queries ==> q.column in table.fields
  }

  function TrueCounts(table: Table, queries: seq<Query>): seq<nat>
    requires table.Valid() && ColumnsPresent(table, queries)
  {
    seq(|queries|, i requires 0 <= i < |queries| =>
      assert queries[i] in queries;
      CountRows(table.rows, queries[i]))
  }

  function ClampAll(counts: seq<nat>, noise: seq<int>): seq<nat>
    requires |counts| == |noise|
  {
    seq(|counts|, i requires 0 <= i < |counts| => Clamp(counts[i], noise[i]))
  }

  ghost predicate AllEpsilonOk(queries: seq<Query>) {
    forall q :: q in queries ==> EpsilonOk(q.epsilon)
  }

  function QueryProblem(q: Query): Option<DpError> {
    if q.column == "" then Some(InvalidQuery) else if !EpsilonOk(q.epsilon) then Some(InvalidEpsilon) else None
  }

  /** What is wrong with the first query that has something wrong with it. */
  function FirstProblem(queries: seq<Query>): (e: Option<DpError>)
    ensures e.None? <==> forall q :: q in queries ==> QueryProblem(q).None?
  {
    if queries == [] then None
    else
      var n := |queries| - 1;
      assert queries == queries[..n] + [queries[n]];
      match FirstProblem(queries[..n]) case Some(e) => Some(e) case None => QueryProblem(queries[n])
  }

  /** The first problem of the beginning of a batch is the first problem of the batch. */
  lemma {:induction false} FirstProblemStays(queries: seq<Query>, i: nat)
    requires i <= |queries| && FirstProblem(queries[..i]).Some?
    ensures FirstProblem(queries) == FirstProblem(queries[..i])
    decreases |queries|
  {
    hide QueryProblem;
    if i == |queries| {
      assert queries[..i] == queries;
    } else {
      var n := |queries| - 1;
      assert queries[..n][..i] == queries[..i];
      FirstProblemStays(queries[..n], i);
    }
  }

  /** Why a batch is refused before anything is drawn. */
  ghost function BatchRefusal(queries: seq<Query>, maximum: real): Option<DpError> {
    if !EpsilonOk(maximum) then Some(InvalidEpsilon)
    else if queries == [] then Some(NoQueries)
    else if FirstProblem(queries).Some? then FirstProblem(queries)
    else if TotalEpsilon(queries) > maximum then Some(BudgetExceeded)
    else None
  }

  /** The first query, if any, that names a column the table does not have. */
  function FirstMissing(table: Table, queries: seq<Query>): (n: nat)
    ensures n <= |queries|
    ensures n < |queries| ==> queries[n].column !in table.fields
    ensures forall k :: 0 <= k < n ==> queries[k].column in table.fields
  {
    if queries == [] then 0
    else
      var n := FirstMissing(table, queries[..|queries| - 1]);
      if n < |queries| - 1 then n
      else if queries[|queries| - 1].column in table.fields then |queries| else |queries| - 1
  }

  /** The queries are answered one after the other: the draws for those before the first missing
      column are made, and only a batch without one is answered. */
  ghost predicate BatchAnswered(table: Table, queries: seq<Query>, tape: seq<Draw>, r: Result<seq<nat>, DpError>)
    requires table.Valid()
  {
    var n := FirstMissing(table, queries);
    match SampleMany(tape, n)
    case None => r == Err(NoMoreDraws)
    case Some((zs, _)) =>
      if n < |queries| then r == Err(MissingColumn)
      else ColumnsPresent(table, queries) && r == Ok(ClampAll(TrueCounts(table, queries), zs))
  }

  /** Every query of the batch is answered by the number of records that meet it, plus its own noise. */
  ghost predicate NoisyCounts(table: Table, queries: seq<Query>, noise: seq<int>, answers: seq<nat>)
    requires table.Valid()
  {
    && |answers| == |queries| == |noise|
    && forall k :: 0 <= k < |queries| ==>
         queries[k].column in table.fields && IsNoisy(answers[k], |Meeting(table.rows, queries[k])|, noise[k])
  }

  lemma AnsweredIsNoisy(table: Table, queries: seq<Query>, tape: seq<Draw>, r: Result<seq<nat>, DpError>)
    requires table.Valid() && BatchAnswered(table, queries, tape, r)
    ensures r.Ok? ==>
      SampleMany(tape, |queries|).Some? && NoisyCounts(table, queries, SampleMany(tape, |queries|).value.0, r.value)
    ensures r == Err(MissingColumn) ==> exists q :: q in queries && q.column !in table.fields
  {
    hide SampleMany, CountRows, Meeting;
    if r.Ok? {
      forall k | 0 <= k < |queries| ensures queries[k].column in table.fields
        ensures TrueCounts(table, queries)[k] == |Meeting(table.rows, queries[k])|
      {
        assert queries[k] in queries;
        CountIsCardinality(table.rows, queries[k]);
      }
    } else if r == Err(MissingColumn) {
      assert queries[FirstMissing(table, queries)] in queries;
    }
  }

  /** A batch is answered only within its budget and with valid epsilons. */
  ghost predicate WithinBudget(queries: seq<Query>, maximum: real) {
    && queries != [] && 0.7 <= maximum <= 100.0 && TotalEpsilon(queries) <= maximum
    && forall q :: q in queries ==> q.column != "" && 0.7 <= q.epsilon <= 100.0
  }

  /** What each error says about the batch. */
  ghost predicate Blames(e: DpError, table: Table, queries: seq<Query>, maximum: real) {
    match e
    case InvalidEpsilon => !EpsilonOk(maximum) || exists q :: q in queries && !EpsilonOk(q.epsilon)
    case NoQueries => queries == []
    case InvalidQuery => exists q :: q in queries && q.column == ""
    case BudgetExceeded => TotalEpsilon(queries) > maximum
    case MissingColumn => exists q :: q in queries && q.column !in table.fields
    case NoMoreDraws => true
    case _ => false
  }

  lemma {:induction false} ProblemIsOfSome(queries: seq<Query>)
    requires FirstProblem(queries).Some?
    ensures exists q :: q in queries && QueryProblem(q) == FirstProblem(queries)
    decreases |queries|
  {
    hide QueryProblem;
    var n := |queries| - 1;
    assert queries[n] in queries && forall q :: q in queries[..n] ==> q in queries;
    if FirstProblem(queries[..n]).Some? {
      ProblemIsOfSome(queries[..n]);
    }
  }

  lemma RefusalIsBlamed(table: Table, queries: seq<Query>, maximum: real)
    ensures BatchRefusal(queries, maximum).Some? ==> Blames(BatchRefusal(queries, maximum).value, table, queries, maximum)
    ensures BatchRefusal(queries, maximum).None? ==> WithinBudget(queries, maximum)
  {
    if FirstProblem(queries).Some? {
      ProblemIsOfSome(queries);
    }
    hide TotalEpsilon, FirstProblem;
  }

  ghost function DrawsUsed(tape: seq<Draw>, n: nat): nat {
    match SampleMany(tape, n) case None => 0 case Some((_, used)) => used
  }

  /** Validates every query and the composed budget before anything is drawn. */
  method ReleaseDpCounts(table: Table, queries: seq<Query>, maximum: real, source: Source)
    returns (r: Result<seq<nat>, DpError>)
    requires table.Valid() && source.Valid()
    modifies source
    ensures source.Valid()
    ensures match BatchRefusal(queries, maximum)
      case Some(e) => r == Err(e) && source.used == old(source.used)
      case None => BatchAnswered(table, queries, source.tape[old(source.used)..], r)
    ensures r.Ok? ==> old(source.used) + DrawsUsed(source.tape[old(source.used)..], |queries|) == source.used
    ensures r.Ok? ==> WithinBudget(queries, maximum)
    ensures r.Ok? ==>
      var samples := SampleMany(source.tape[old(source.used)..], |queries|);
      samples.Some? && NoisyCounts(table, queries, samples.value.0, r.value)
    ensures r.Err? ==> Blames(r.error, table, queries, maximum)
  {
    hide BatchAnswered, NoisyCounts, WithinBudget, Blames;
    RefusalIsBlamed(table, queries, maximum);
    if !EpsilonOk(maximum) {
      return Err(InvalidEpsilon);
    }
    if queries == [] {
      return Err(NoQueries);
    }
    var total := 0.0;
    for i := 0 to |queries|
      invariant total == TotalEpsilon(queries[..i])
      invariant FirstProblem(queries[..i]).None?
      invariant source.used == old(source.used)
    {
      assert queries[..i + 1][..i] == queries[..i];
      if queries[i].column == "" {
        FirstProblemStays(queries, i + 1);
        return Err(InvalidQuery);
      }
      if !EpsilonOk(queries[i].epsilon) {
        FirstProblemStays(queries, i + 1);
        return Err(InvalidEpsilon);
      }
      total := total + queries[i].epsilon;
    }
    assert queries[..|queries|] == queries;
    if total > maximum {
      return Err(BudgetExceeded);
    }
    r := ReleaseAll(table, queries, source);
    AnsweredIsNoisy(table, queries, source.tape[old(source.used)..], r);
    AnswerIsBlamed(table, queries, maximum, source.tape[old(source.used)..], r);
  }

  lemma AnswerIsBlamed(table: Table, queries: seq<Query>, maximum: real, tape: seq<Draw>, r: Result<seq<nat>, DpError>)
    requires table.Valid() && BatchAnswered(table, queries, tape, r)
    ensures r.Err? ==> Blames(r.error, table, queries, maximum)
  {
    AnsweredIsNoisy(table, queries, tape, r);
  }

  method ReleaseAll(table: Table, queries: seq<Query>, source: Source) returns (r: Result<seq<nat>, DpError>)
    requires table.Valid() && source.Valid() && AllEpsilonOk(queries)
    modifies source
    ensures source.Valid() && BatchAnswered(table, queries, source.tape[old(source.used)..], r)
    ensures r.Ok? ==> old(source.used) + DrawsUsed(source.tape[old(source.used)..], |queries|) == source.used
  {
    hide SampleMany, Sample, CountRows, Meeting;
    ghost var start := source.used;
    ghost var tape := source.tape[start..];
    ghost var noise: seq<int> := [];
    var releases: seq<nat> := [];
    SampleNone(tape);
    for i := 0 to |queries|
      invariant source.Valid() && start <= source.used && i <= FirstMissing(table, queries)
      invariant SampleMany(tape, i) == Some((noise, source.used - start)) && |noise| == i
      invariant |releases| == i && forall k :: 0 <= k < i ==>
        queries[k].column in table.fields && releases[k] == Clamp(CountRows(table.rows, queries[k]), noise[k])
    {
      ghost var at := source.used - start;
      assert source.tape[source.used..] == tape[at..];
      assert queries[i] in queries;
      var release := ReleaseDpCount(table, queries[i], source);
      if release.Err? {
        if release == Err(NoMoreDraws) {
          SampleStops(tape, i, FirstMissing(table, queries), noise, at);
        }
        return Err(release.error);
      }
      ghost var z := SampleOneMore(tape, i, noise, at);
      CountIsCardinality(table.rows, queries[i]);
      noise := noise + [z];
      releases := releases + [release.value];
    }
    assert ColumnsPresent(table, queries);
    assert releases == ClampAll(TrueCounts(table, queries), noise);
    r := Ok(releases);
  }

  /** Once a sample has run out of draws, so has every longer batch. */
  lemma {:induction false} SampleStops(tape: seq<Draw>, n: nat, m: nat, noise: seq<int>, used: nat)
    requires SampleMany(tape, n) == Some((noise, used)) && used <= |tape| && Sample(tape[used..]).None? && n < m
    ensures SampleMany(tape, m).None?
    decreases m
  {
    hide Sample;
    if n + 1 < m {
      SampleStops(tape, n, m - 1, noise, used);
    }
  }

  lemma SampleNone(tape: seq<Draw>)
    ensures SampleMany(tape, 0) == Some(([], 0))
  {
  }

  lemma SampleOneMore(tape: seq<Draw>, n: nat, noise: seq<int>, used: nat) returns (z: int)
    requires SampleMany(tape, n) == Some((noise, used)) && used <= |tape| && Sample(tape[used..]).Some?
    ensures Sample(tape[used..]).value.0 == z
    ensures SampleMany(tape, n + 1) == Some((noise + [z], used + Sample(tape[used..]).value.1))
  {
    z := Sample(tape[used..]).value.0;
  }

  /** Joint probability of a batch: its queries use disjoint stretches of the tape. */
  function BatchMass(counts: seq<nat>, vs: seq<nat>): (p: real)
    requires |counts| == |vs|
    ensures 0.0 < p
  {
    if counts == [] then 1.0
    else BatchMass(counts[..|counts| - 1], vs[..|vs| - 1]) * ClampMass(counts[|counts| - 1], vs[|vs| - 1])
  }

  // ---------- Why joint probabilities are products ----------

  /** The tape on which consecutive samples yield `noise` after the given rejections. */
  ghost function TapesOf(noise: seq<int>, rejected: seq<nat>): seq<Draw>
    requires |noise| == |rejected|
  {
    if noise == [] then []
    else
      var n := |noise| - 1;
      TapesOf(noise[..n], rejected[..n]) + TapeOf(noise[n], rejected[n])
  }

  lemma {:induction false} WeightConcat(a: seq<Draw>, b: seq<Draw>)
    requires FairTape(a) && FairTape(b)
    ensures FairTape(a + b) && Weight(a + b) == Weight(a) * Weight(b)
  {
    hide Weight, FairTape;
    FairConcat(a, b);
    if a == [] {
      assert a + b == b;
      EmptyWeight();
    } else {
      WeightStep(a);
      WeightStep(a + b);
      assert (a + b)[1..] == a[1..] + b && (a + b)[0] == a[0];
      WeightConcat(a[1..], b);
    }
  }

  /** One more query reads on from where the others stopped; the weight of the whole tape is
      the product of theirs. The draws of different queries are independent. */
  lemma SamplesAreIndependent(noise: seq<int>, rejected: seq<nat>, z: int, r: nat)
    requires |noise| == |rejected|
    ensures var before, last := TapesOf(noise, rejected), TapeOf(z, r);
      && FairTape(before) && FairTape(last) && FairTape(before + last)
      && Weight(before + last) == Weight(before) * Weight(last)
      && SampleMany(before + last, |noise| + 1) == Some((noise + [z], |before + last|))
  {
    hide Sample, SampleMany, TapeOf, TapesOf, FairTape, Weight;
    var before, last := TapesOf(noise, rejected), TapeOf(z, r);
    ManySamples(noise, rejected, last);
    TapeLength(z, r);
    WeightConcat(before, last);
    SampleOfTape(z, r, []);
    assert last + [] == last && (before + last)[|before|..] == last;
    var z' := SampleOneMore(before + last, |noise|, noise, |before|);
  }

  lemma NoTapes(tail: seq<Draw>)
    ensures TapesOf([], []) == [] && FairTape(TapesOf([], [])) && SampleMany(tail, 0) == Some(([], 0))
  {
  }

  lemma LastTape(noise: seq<int>, rejected: seq<nat>)
    requires |noise| == |rejected| && noise != []
    ensures var n := |noise| - 1; TapesOf(noise, rejected) == TapesOf(noise[..n], rejected[..n]) + TapeOf(noise[n], rejected[n])
  {
    hide TapeOf;
  }

  lemma {:induction false} ManySamples(noise: seq<int>, rejected: seq<nat>, tail: seq<Draw>)
    requires |noise| == |rejected|
    ensures FairTape(TapesOf(noise, rejected))
    ensures SampleMany(TapesOf(noise, rejected) + tail, |noise|) == Some((noise, |TapesOf(noise, rejected)|))
    decreases |noise|
  {
    hide *;
    if noise == [] {
      NoTapes(tail);
      assert noise == [] && rejected == [] && TapesOf([], []) + tail == tail;
    } else {
      var n := |noise| - 1;
      var before, last := TapesOf(noise[..n], rejected[..n]), TapeOf(noise[n], rejected[n]);
      LastTape(noise, rejected);
      TapeLength(noise[n], rejected[n]);
      ManySamples(noise[..n], rejected[..n], last + tail);
      FairConcat(before, last);
      SampleOfTape(noise[n], rejected[n], tail);
      AppendSample(before, last, tail, noise[..n], noise[n]);
      assert noise[..n] + [noise[n]] == noise;
    }
  }

  lemma AppendSample(before: seq<Draw>, last: seq<Draw>, tail: seq<Draw>, zs: seq<int>, z: int)
    requires SampleMany(before + (last + tail), |zs|) == Some((zs, |before|)) && Sample(last + tail) == Some((z, |last|))
    ensures SampleMany(before + last + tail, |zs| + 1) == Some((zs + [z], |before + last|))
  {
    hide Sample, SampleMany;
    var tape := before + (last + tail);
    assert before + last + tail == tape && tape[|before|..] == last + tail;
    var z' := SampleOneMore(tape, |zs|, zs, |before|);
  }

  lemma FairConcat(a: seq<Draw>, b: seq<Draw>)
    requires FairTape(a) && FairTape(b)
    ensures FairTape(a + b)
  {
  }

  // ---------- Privacy of a batch ----------

  function Power2(n: nat): real {
    if n == 0 then 1.0 else 2.0 * Power2(n - 1)
  }

  /** Product of masses under counts that differ by one at most, everywhere. */
  lemma {:induction false} MassRatio(counts: seq<nat>, counts': seq<nat>, vs: seq<nat>)
    requires |counts| == |counts'| == |vs|
    requires forall i :: 0 <= i < |counts| ==> counts[i] <= counts'[i] + 1 && counts'[i] <= counts[i] + 1
    ensures BatchMass(counts, vs) <= Power2(|vs|) * BatchMass(counts', vs)
    decreases |vs|
  {
    hide ClampMass;
    if vs != [] {
      var n := |vs| - 1;
      MassRatio(counts[..n], counts'[..n], vs[..n]);
      CountIsPrivate(counts[n], counts'[n], vs[n]);
      ComposeBounds(BatchMass(counts[..n], vs[..n]), BatchMass(counts'[..n], vs[..n]),
                    ClampMass(counts[n], vs[n]), ClampMass(counts'[n], vs[n]), Power2(n));
    }
  }

  lemma ComposeBounds(a: real, b: real, c: real, d: real, p: real)
    requires 0.0 < a <= p * b && 0.0 < c <= 2.0 * d
    ensures a * c <= 2.0 * p * (b * d)
  {
    var pb := p * b;
    assert a * c <= pb * c;
    assert pb * c <= pb * (2.0 * d);
    Regroup(p, b, d);
  }

  lemma Regroup(p: real, a: real, b: real)
    ensures p * a * (2.0 * b) == 2.0 * p * (a * b)
  {
    assert p * a * b == p * (a * b);
  }

  /** A batch of n queries changes by a factor of 2^n at most when one record is added or
      removed: basic sequential composition. */
  lemma BatchIsPrivate(a: Table, b: Table, queries: seq<Query>, vs: seq<nat>)
    requires a.Valid() && b.Valid() && Neighbours(a, b) && ColumnsPresent(a, queries) && |vs| == |queries|
    ensures ColumnsPresent(b, queries)
    ensures BatchMass(TrueCounts(a, queries), vs) <= Power2(|queries|) * BatchMass(TrueCounts(b, queries), vs)
  {
    hide BatchMass, Power2, CountRows, Neighbours;
    forall i | 0 <= i < |queries|
      ensures queries[i].column in b.fields
      ensures TrueCounts(a, queries)[i] <= CountRows(b.rows, queries[i]) + 1
      ensures CountRows(b.rows, queries[i]) <= TrueCounts(a, queries)[i] + 1
    {
      assert queries[i] in queries;
      CountsDifferByOne(a, b, queries[i]);
    }
    MassRatio(TrueCounts(a, queries), TrueCounts(b, queries), vs);
  }

  /** The declared budget pays for it: n queries cost 7/10 each, so n * 7/10 <= maximum. */
  lemma QueriesWithinBudget(queries: seq<Query>)
    requires forall q :: q in queries ==> EpsilonOk(q.epsilon)
    ensures (|queries| as real) * MIN_EPSILON <= TotalEpsilon(queries)
  {
    if queries != [] {
      var n := |queries| - 1;
      assert queries[n] in queries;
      QueriesWithinBudget(queries[..n]);
    }
  }
}
