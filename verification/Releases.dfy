/** What one budget pays for: count batches and histograms, released one after the other, and what
    one record can change about all of them together. */
module Releases {
  import opened Results
  import opened NoiseSampler
  import opened DpRelease
  import opened DpHistogram
  import opened DpTapes

  datatype Request =
    | Batch(queries: seq<Query>)
    | Histogram(dimensions: seq<string>, domains: seq<seq<string>>, epsilon: real)
  {
    function Cost(): real {
      match this case Batch(qs) => TotalEpsilon(qs) case Histogram(_, _, e) => e
    }

    /** How often the likelihood of what is released may double. */
    function Doublings(): nat {
      match this case Batch(qs) => |qs| case Histogram(_, _, _) => 1
    }

    /** Every epsilon the ledger takes is within bounds. */
    ghost predicate Paid() {
      match this case Batch(qs) => qs != [] && AllEpsilonOk(qs) case Histogram(_, _, e) => EpsilonOk(e)
    }

    /** The request is not refused for this table. */
    ghost predicate Answerable(table: Table) {
      && table.Valid()
      && match this case Batch(qs) => ColumnsPresent(table, qs) case Histogram(ds, doms, _) => Releasable(table, ds, doms)
    }

    /** The true counts that get noise added. */
    ghost function Counts(table: Table): seq<nat>
      requires Answerable(table)
    {
      match this
      case Batch(qs) => TrueCounts(table, qs)
      case Histogram(ds, doms, _) => CellCounts(table.rows, ds, Cells(doms))
    }

    /** On this tape exactly, the request releases `vs`: the answers, or the file made of them. */
    ghost predicate ReleasesOn(t: Tape, table: Table, vs: seq<nat>)
      requires Answerable(table)
    {
      && FairTape(t) && UsesAll(t, |Counts(table)|)
      && match this
         case Batch(qs) => BatchAnswered(table, qs, t, Ok(vs))
         case Histogram(ds, doms, _) =>
           |vs| == |Cells(doms)| && HistogramAnswered(table, ds, Cells(doms), t, Ok(Expand(Cells(doms), vs)))
    }
  }

  function TotalCost(rs: seq<Request>): real {
    if rs == [] then 0.0 else TotalCost(rs[..|rs| - 1]) + rs[|rs| - 1].Cost()
  }

  function TotalDoublings(rs: seq<Request>): nat {
    if rs == [] then 0 else TotalDoublings(rs[..|rs| - 1]) + rs[|rs| - 1].Doublings()
  }

  ghost predicate AllPaid(rs: seq<Request>) {
    forall r :: r in rs ==> r.Paid()
  }

  ghost predicate AllAnswerable(table: Table, rs: seq<Request>) {
    forall r :: r in rs ==> r.Answerable(table)
  }

  /** The true counts behind everything released, in the order of release. */
  ghost function AllCounts(table: Table, rs: seq<Request>): seq<nat>
    requires AllAnswerable(table, rs)
  {
    if rs == [] then []
    else
      var n := |rs| - 1;
      assert rs[n] in rs && forall r :: r in rs[..n] ==> r in rs;
      AllCounts(table, rs[..n]) + rs[n].Counts(table)
  }

  // ---------- The budget ----------

  /** The cost is the sum of what is declared: query by query in a batch, request by request in a run. */
  lemma CostIsDeclared(a: seq<Query>, b: seq<Query>, q: Query, dimensions: seq<string>, domains: seq<seq<string>>, epsilon: real,
                       rs: seq<Request>, r: Request)
    ensures Batch([q]).Cost() == q.epsilon && Batch(a + b).Cost() == Batch(a).Cost() + Batch(b).Cost()
    ensures Histogram(dimensions, domains, epsilon).Cost() == epsilon
    ensures TotalCost([]) == 0.0 && TotalCost(rs + [r]) == TotalCost(rs) + r.Cost()
  {
    TotalIsTheSum(a, b, q);
    assert (rs + [r])[..|rs|] == rs;
  }

  /** Every doubling is paid with 7/10 at least. */
  lemma {:induction false} DoublingsArePaid(rs: seq<Request>)
    requires AllPaid(rs)
    ensures (TotalDoublings(rs) as real) * MIN_EPSILON <= TotalCost(rs)
    decreases |rs|
  {
    if rs != [] {
      var n := |rs| - 1;
      assert rs[n] in rs && forall r :: r in rs[..n] ==> r in rs;
      DoublingsArePaid(rs[..n]);
      RequestIsPaid(rs[n]);
    }
  }

  lemma RequestIsPaid(r: Request)
    requires r.Paid()
    ensures 0.0 < (r.Doublings() as real) * MIN_EPSILON <= r.Cost()
  {
    match r {
      case Batch(qs) => QueriesWithinBudget(qs);
      case Histogram(_, _, _) =>
    }
  }

  // ---------- What one record changes ----------

  ghost predicate MoveByOne(counts: seq<nat>, counts': seq<nat>) {
    |counts| == |counts'| && forall i :: 0 <= i < |counts| ==> counts[i] <= counts'[i] + 1 && counts'[i] <= counts[i] + 1
  }

  /** At most `n` counts differ, and those by one. */
  ghost predicate Moved(counts: seq<nat>, counts': seq<nat>, n: nat) {
    MoveByOne(counts, counts') && Changed(counts, counts') <= n
  }

  lemma BatchMoves(a: Table, b: Table, queries: seq<Query>)
    requires a.Valid() && b.Valid() && Neighbours(a, b) && ColumnsPresent(a, queries) && ColumnsPresent(b, queries)
    ensures Moved(TrueCounts(a, queries), TrueCounts(b, queries), |queries|)
  {
    hide CountRows, Neighbours;
    forall i | 0 <= i < |queries|
      ensures CountRows(a.rows, queries[i]) <= CountRows(b.rows, queries[i]) + 1
      ensures CountRows(b.rows, queries[i]) <= CountRows(a.rows, queries[i]) + 1
    {
      assert queries[i] in queries;
      CountsDifferByOne(a, b, queries[i]);
    }
    ChangedAtMost(TrueCounts(a, queries), TrueCounts(b, queries));
  }

  lemma HistogramMoves(a: Table, b: Table, dimensions: seq<string>, domains: seq<seq<string>>)
    requires Neighbours(a, b) && Releasable(a, dimensions, domains) && Releasable(b, dimensions, domains)
    ensures Moved(CellCounts(a.rows, dimensions, Cells(domains)), CellCounts(b.rows, dimensions, Cells(domains)), 1)
  {
    hide CellCount, Cells, Neighbours;
    var k := OneCellChanges(a, b, dimensions, domains);
    ChangedAtOne(CellCounts(a.rows, dimensions, Cells(domains)), CellCounts(b.rows, dimensions, Cells(domains)), k);
  }

  lemma RequestMoves(a: Table, b: Table, r: Request)
    requires Neighbours(a, b) && r.Answerable(a) && r.Answerable(b)
    ensures Moved(r.Counts(a), r.Counts(b), r.Doublings())
  {
    hide Moved, Neighbours;
    match r {
      case Batch(qs) => BatchMoves(a, b, qs);
      case Histogram(ds, doms, _) => HistogramMoves(a, b, ds, doms);
    }
  }

  lemma {:induction false} ChangedConcat(a: seq<nat>, a': seq<nat>, b: seq<nat>, b': seq<nat>)
    requires |a| == |a'| && |b| == |b'|
    ensures Changed(a + b, a' + b') == Changed(a, a') + Changed(b, b')
    decreases |b|
  {
    if b == [] {
      assert a + b == a && a' + b' == a';
    } else {
      var n := |b| - 1;
      ChangedConcat(a, a', b[..n], b'[..n]);
      assert (a + b)[..|a + b| - 1] == a + b[..n] && (a' + b')[..|a + b| - 1] == a' + b'[..n];
    }
  }

  lemma MovedConcat(a: seq<nat>, a': seq<nat>, m: nat, b: seq<nat>, b': seq<nat>, n: nat)
    requires Moved(a, a', m) && Moved(b, b', n)
    ensures Moved(a + b, a' + b', m + n)
  {
    hide Changed;
    ChangedConcat(a, a', b, b');
  }

  /** One record moves as many of all the counts as there are queries and histograms. */
  lemma {:induction false} RequestsMove(a: Table, b: Table, rs: seq<Request>)
    requires Neighbours(a, b) && AllAnswerable(a, rs) && AllAnswerable(b, rs)
    ensures Moved(AllCounts(a, rs), AllCounts(b, rs), TotalDoublings(rs))
    decreases |rs|
  {
    hide Neighbours;
    if rs != [] {
      var n := |rs| - 1;
      assert rs[n] in rs && forall r :: r in rs[..n] ==> r in rs;
      RequestsMove(a, b, rs[..n]);
      RequestMoves(a, b, rs[n]);
      hide Moved;
      MovedConcat(AllCounts(a, rs[..n]), AllCounts(b, rs[..n]), TotalDoublings(rs[..n]),
                  rs[n].Counts(a), rs[n].Counts(b), rs[n].Doublings());
    }
  }

  lemma ClampRatio(count: nat, count': nat, v: nat)
    requires count' <= count + 1 && count <= count' + 1
    ensures Within(ClampMass(count, v), if count == count' then 1.0 else 2.0, ClampMass(count', v))
  {
    CountIsPrivate(count, count', v);
  }

  lemma LastFactor(counts: seq<nat>, vs: seq<nat>)
    requires |counts| == |vs| && counts != []
    ensures var n := |counts| - 1; IsProduct(BatchMass(counts, vs), BatchMass(counts[..n], vs[..n]), ClampMass(counts[n], vs[n]))
  {
    var a, c := BatchStep(counts, vs);
  }

  /** The joint probability at most doubles with every count that moves. */
  lemma {:induction false} JointRatio(counts: seq<nat>, counts': seq<nat>, vs: seq<nat>)
    requires MoveByOne(counts, counts') && |counts| == |vs|
    ensures Within(BatchMass(counts, vs), Power2(Changed(counts, counts')), BatchMass(counts', vs))
    decreases |counts|
  {
    if counts != [] {
      var n := |counts| - 1;
      LastFactor(counts, vs);
      LastFactor(counts', vs);
      var p := Power2(Changed(counts[..n], counts'[..n]));
      var f := ChangedStep(counts, counts');
      hide BatchMass, Power2, Changed, Within, ClampMass;
      JointRatio(counts[..n], counts'[..n], vs[..n]);
      ClampRatio(counts[n], counts'[n], vs[n]);
      ComposeRatios(p, f, BatchMass(counts[..n], vs[..n]), BatchMass(counts'[..n], vs[..n]),
                    ClampMass(counts[n], vs[n]), ClampMass(counts'[n], vs[n]),
                    BatchMass(counts, vs), BatchMass(counts', vs), Power2(Changed(counts, counts')));
    }
  }

  /** One record in or out changes the likelihood of all releases together by a factor of 2^d at
      most, d counting one for each query and one for each histogram, whatever its size. */
  lemma ReleasesArePrivate(a: Table, b: Table, rs: seq<Request>, vs: seq<nat>)
    requires Neighbours(a, b) && AllAnswerable(a, rs) && AllAnswerable(b, rs) && |vs| == |AllCounts(a, rs)|
    ensures |AllCounts(b, rs)| == |vs|
    ensures Within(BatchMass(AllCounts(a, rs), vs), Power2(TotalDoublings(rs)), BatchMass(AllCounts(b, rs), vs))
    ensures forall rounds: nat, m: nat ::
      Within(TapesWeight(AllCounts(a, rs), vs, rounds, m), Power2(TotalDoublings(rs)),
             TapesWeight(AllCounts(b, rs), vs, rounds, m + 1))
  {
    hide AllCounts, BatchMass, Power2, Changed, Within, TapesWeight, Neighbours;
    RequestsMove(a, b, rs);
    var counts, counts', d := AllCounts(a, rs), AllCounts(b, rs), TotalDoublings(rs);
    JointRatio(counts, counts', vs);
    PowerGrows(Changed(counts, counts'), d);
    WiderWithin(BatchMass(counts, vs), Power2(Changed(counts, counts')), BatchMass(counts', vs), Power2(d));
    forall rounds: nat, m: nat
      ensures Within(TapesWeight(counts, vs, rounds, m), Power2(d), TapesWeight(counts', vs, rounds, m + 1))
    {
      WeightRatio(counts, counts', vs, rounds, m, d);
    }
  }

  // ---------- The tapes of everything released ----------

  /** The releases read the tape one after the other, each giving its own answers. */
  ghost predicate OneByOne(t: Tape, table: Table, rs: seq<Request>, answers: seq<seq<nat>>)
    requires AllAnswerable(table, rs) && |answers| == |rs|
    decreases |rs|
  {
    if rs == [] then t == []
    else
      var n := |rs| - 1;
      assert rs[n] in rs && forall r :: r in rs[..n] ==> r in rs;
      exists k :: 0 <= k <= |t| && OneByOne(t[..k], table, rs[..n], answers[..n]) && rs[n].ReleasesOn(t[k..], table, answers[n])
  }

  function Flatten(answers: seq<seq<nat>>): seq<nat> {
    if answers == [] then [] else Flatten(answers[..|answers| - 1]) + answers[|answers| - 1]
  }

  ghost predicate Fits(table: Table, rs: seq<Request>, answers: seq<seq<nat>>)
    requires AllAnswerable(table, rs)
  {
    |answers| == |rs| && forall i :: 0 <= i < |rs| ==> (assert rs[i] in rs; |answers[i]| == |rs[i].Counts(table)|)
  }

  lemma RequestOnTape(table: Table, r: Request, vs: seq<nat>, t: Tape)
    requires r.Answerable(table) && |vs| == |r.Counts(table)|
    ensures r.ReleasesOn(t, table, vs) <==> AnswersOn(t, r.Counts(table), vs)
  {
    hide AnswersOn, UsesAll, BatchAnswered, HistogramAnswered, Cells, CellCount, CountRows, Expand, FairTape;
    match r {
      case Batch(qs) => BatchOnTape(table, qs, vs, t);
      case Histogram(ds, doms, _) => HistogramOnTape(table, ds, doms, vs, t);
    }
  }

  ghost function OneMoreSample(before: Option<(seq<int>, nat)>, tape: Tape): Option<(seq<int>, nat)> {
    match before
    case None => None
    case Some((zs, used)) =>
      if used > |tape| then None
      else match Sample(tape[used..]) case None => None case Some((z, k)) => Some((zs + [z], used + k))
  }

  lemma SampleNext(t: Tape, n: nat)
    ensures SampleMany(t, n + 1) == OneMoreSample(SampleMany(t, n), t)
    ensures SampleMany(t, 0) == Some(([], 0))
  {
    hide Sample;
  }

  /** One more sample after a first stretch is one more sample of the rest. */
  lemma SampleAfter(t: Tape, zs: seq<int>, used: nat, more: seq<int>, k: nat)
    requires used <= |t| && k <= |t[used..]|
    ensures OneMoreSample(Some((zs + more, used + k)), t) == Joined(zs, used, OneMoreSample(Some((more, k)), t[used..]))
  {
    hide Sample;
    assert t[used..][k..] == t[used + k..];
    var next := Sample(t[used + k..]);
    if next.Some? {
      assert zs + (more + [next.value.0]) == zs + more + [next.value.0];
    }
  }

  ghost function Joined(zs: seq<int>, used: nat, rest: Option<(seq<int>, nat)>): Option<(seq<int>, nat)> {
    match rest case None => None case Some((more, k)) => Some((zs + more, used + k))
  }

  /** Sampling on reads what sampling the rest would. */
  lemma {:induction false} SampleSplit(t: Tape, n: nat, m: nat, zs: seq<int>, used: nat)
    requires SampleMany(t, n) == Some((zs, used)) && used <= |t|
    ensures SampleMany(t, n + m) == Joined(zs, used, SampleMany(t[used..], m))
    decreases m
  {
    hide SampleMany, Sample, OneMoreSample;
    SampleNext(t[used..], if m == 0 then 0 else m - 1);
    if m == 0 {
      assert zs + [] == zs;
    } else {
      SampleNext(t, n + (m - 1));
      SampleSplit(t, n, m - 1, zs, used);
      StopsForGood(t);
      var s := SampleMany(t[used..], m - 1);
      if s.None? {
        StopsForGood(t[used..]);
      } else {
        SampleAfter(t, zs, used, s.value.0, s.value.1);
      }
    }
  }

  lemma StopsForGood(t: Tape)
    ensures OneMoreSample(None, t) == None
  {
  }

  /** What the first samples read, they read from the stretch they use. */
  lemma SamplePrefix(t: Tape, n: nat, k: nat)
    requires FairTape(t) && k <= |t|
    ensures (SampleMany(t, n).Some? && SampleMany(t, n).value.1 == k)
       <==> (SampleMany(t[..k], n).Some? && SampleMany(t[..k], n).value.1 == k)
    ensures SampleMany(t, n).Some? && SampleMany(t, n).value.1 == k ==> SampleMany(t, n) == SampleMany(t[..k], n)
  {
    hide SampleMany;
    assert t == t[..k] + t[k..] && t[..k] + [] == t[..k];
    var s, s' := SampleMany(t, n), SampleMany(t[..k], n);
    if s.Some? && s.value.1 == k {
      var rejected := TapesAreTapesOf(t, s.value.0, k);
      ManySamples(s.value.0, rejected, []);
    }
    if s'.Some? && s'.value.1 == k {
      var rejected := TapesAreTapesOf(t[..k], s'.value.0, k);
      ManySamples(s'.value.0, rejected, t[k..]);
    }
  }

  lemma ClampConcat(a: seq<nat>, b: seq<nat>, ys: seq<int>, zs: seq<int>)
    requires |a| == |ys| && |b| == |zs|
    ensures ClampAll(a + b, ys + zs) == ClampAll(a, ys) + ClampAll(b, zs)
    ensures |ClampAll(a, ys)| == |a|
  {
  }

  lemma SplitAnswers(t: Tape, a: seq<nat>, b: seq<nat>, v: seq<nat>, w: seq<nat>) returns (k: nat)
    requires AnswersOn(t, a + b, v + w) && |a| == |v| && |b| == |w|
    ensures k <= |t| && AnswersOn(t[..k], a, v) && AnswersOn(t[k..], b, w)
  {
    hide SampleMany, ClampAll;
    FirstSamples(t, |a|, |b|);
    var first := SampleMany(t, |a|).value;
    k := first.1;
    SampleSplit(t, |a|, |b|, first.0, k);
    SamplePrefix(t, |a|, k);
    var rest := SampleMany(t[k..], |b|).value;
    ClampConcat(a, b, first.0, rest.0);
    assert ClampAll(a, first.0) + ClampAll(b, rest.0) == v + w;
    assert ClampAll(a, first.0) == (v + w)[..|a|] == v;
    assert ClampAll(b, rest.0) == (v + w)[|a|..] == w;
  }

  lemma {:induction false} FirstSamples(t: Tape, n: nat, m: nat)
    requires SampleMany(t, n + m).Some?
    ensures SampleMany(t, n).Some?
    decreases m
  {
    hide Sample;
    if m > 0 {
      FirstSamples(t, n, m - 1);
    }
  }

  lemma JoinAnswers(t: Tape, k: nat, a: seq<nat>, b: seq<nat>, v: seq<nat>, w: seq<nat>)
    requires k <= |t| && AnswersOn(t[..k], a, v) && AnswersOn(t[k..], b, w)
    ensures AnswersOn(t, a + b, v + w)
  {
    hide SampleMany, ClampAll;
    assert t == t[..k] + t[k..];
    FairConcat(t[..k], t[k..]);
    SamplePrefix(t, |a|, k);
    var first, rest := SampleMany(t, |a|).value, SampleMany(t[k..], |b|).value;
    SampleSplit(t, |a|, |b|, first.0, k);
    ClampConcat(a, b, first.0, rest.0);
  }

  /** The tapes that count for the joint likelihood are exactly those on which the releases, made
      one after the other, give these answers. */
  lemma {:induction false} ReleasesOnTape(table: Table, rs: seq<Request>, answers: seq<seq<nat>>, t: Tape)
    requires AllAnswerable(table, rs) && Fits(table, rs, answers)
    ensures |Flatten(answers)| == |AllCounts(table, rs)|
    ensures OneByOne(t, table, rs, answers) <==> AnswersOn(t, AllCounts(table, rs), Flatten(answers))
    decreases |rs|
  {
    hide AnswersOn, Request.ReleasesOn, Request.Counts, Request.Answerable;
    if rs == [] {
      NothingAnswered(t);
    } else {
      var n := |rs| - 1;
      assert rs[n] in rs && forall r :: r in rs[..n] ==> r in rs;
      assert forall i :: 0 <= i < n ==> rs[..n][i] == rs[i] && answers[..n][i] == answers[i];
      assert AllAnswerable(table, rs[..n]) && Fits(table, rs[..n], answers[..n]);
      ReleasesOnTape(table, rs[..n], answers[..n], t);
      var a, b, v, w := AllCounts(table, rs[..n]), rs[n].Counts(table), Flatten(answers[..n]), answers[n];
      forall k | 0 <= k <= |t|
        ensures OneByOne(t[..k], table, rs[..n], answers[..n]) <==> AnswersOn(t[..k], a, v)
        ensures rs[n].ReleasesOn(t[k..], table, w) <==> AnswersOn(t[k..], b, w)
      {
        ReleasesOnTape(table, rs[..n], answers[..n], t[..k]);
        RequestOnTape(table, rs[n], w, t[k..]);
      }
      if OneByOne(t, table, rs, answers) {
        var k :| 0 <= k <= |t| && OneByOne(t[..k], table, rs[..n], answers[..n]) && rs[n].ReleasesOn(t[k..], table, w);
        JoinAnswers(t, k, a, b, v, w);
      }
      if AnswersOn(t, a + b, v + w) {
        var k := SplitAnswers(t, a, b, v, w);
        assert OneByOne(t[..k], table, rs[..n], answers[..n]) && rs[n].ReleasesOn(t[k..], table, w);
      }
    }
  }

  lemma NothingAnswered(t: Tape)
    ensures AnswersOn(t, [], []) <==> t == []
  {
    assert FairTape([]);
  }
}
