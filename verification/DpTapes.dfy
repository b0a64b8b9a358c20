/** The joint probabilities of batches and histograms, derived from the tapes: which fair tapes
    release given answers, how much they weigh together, and what one record changes about that. */
module DpTapes {
  import opened Results
  import opened NoiseSampler
  import opened NoiseDistribution
  import opened DpRelease
  import opened DpHistogram

  type Tape = seq<Draw>

  ghost predicate AllFair(ts: seq<Tape>) {
    forall t :: t in ts ==> FairTape(t)
  }

  ghost function SumWeight(ts: seq<Tape>): real
    requires AllFair(ts)
  {
    if ts == [] then 0.0 else assert ts[0] in ts; Weight(ts[0]) + SumWeight(ts[1..])
  }

  lemma {:induction false} SumConcat(a: seq<Tape>, b: seq<Tape>)
    requires AllFair(a) && AllFair(b)
    ensures AllFair(a + b) && SumWeight(a + b) == SumWeight(a) + SumWeight(b)
  {
    hide Weight, FairTape;
    if a == [] {
      assert a + b == b;
    } else {
      assert a[0] in a && (a + b)[1..] == a[1..] + b;
      SumConcat(a[1..], b);
    }
  }

  // ---------- The tapes of one answer ----------

  /** The tapes that yield `z` within `rounds` branch draws. */
  ghost function NoiseTapes(z: int, rounds: nat): seq<Tape> {
    if rounds == 0 then [] else NoiseTapes(z, rounds - 1) + [TapeOf(z, rounds - 1)]
  }

  /** The tapes on which a count of `count` records is answered `v`, with noise in -m..m. */
  ghost function AnswerTapes(count: nat, v: nat, rounds: nat, m: nat): seq<Tape> {
    (if m == 0 then [] else AnswerTapes(count, v, rounds, m - 1))
    + (if Clamp(count, m) == v then NoiseTapes(m, rounds) else [])
    + (if m > 0 && Clamp(count, -(m as int)) == v then NoiseTapes(-(m as int), rounds) else [])
  }

  ghost predicate Yields(t: Tape, z: int, rejected: nat) {
    t == TapeOf(z, rejected)
  }

  lemma {:induction false} InNoiseTapes(z: int, rounds: nat, t: Tape)
    ensures t in NoiseTapes(z, rounds) <==> exists r: nat :: r < rounds && Yields(t, z, r)
  {
    hide TapeOf;
    if rounds > 0 {
      var last: nat := rounds - 1;
      InNoiseTapes(z, last, t);
      assert Yields(t, z, last) <==> t in [TapeOf(z, last)];
    }
  }

  /** The noise counted and the rejections allowed. */
  ghost predicate Counted(z: int, r: nat, count: nat, v: nat, rounds: nat, m: nat) {
    Abs(z) <= m && Clamp(count, z) == v && r < rounds
  }

  lemma {:induction false} AnswerTapeNoise(count: nat, v: nat, rounds: nat, m: nat, t: Tape) returns (z: int, r: nat)
    requires t in AnswerTapes(count, v, rounds, m)
    ensures Counted(z, r, count, v, rounds, m) && Yields(t, z, r)
  {
    InNoiseTapes(m, rounds, t);
    InNoiseTapes(-(m as int), rounds, t);
    hide NoiseTapes, Yields, Clamp;
    if Clamp(count, m) == v && t in NoiseTapes(m, rounds) {
      z, r := m, var r: nat :| r < rounds && Yields(t, m, r); r;
    } else if m > 0 && Clamp(count, -(m as int)) == v && t in NoiseTapes(-(m as int), rounds) {
      z, r := -(m as int), var r: nat :| r < rounds && Yields(t, -(m as int), r); r;
    } else {
      z, r := AnswerTapeNoise(count, v, rounds, m - 1, t);
    }
  }

  lemma {:induction false} NoiseAnswerTape(count: nat, v: nat, rounds: nat, m: nat, z: int, r: nat)
    requires Counted(z, r, count, v, rounds, m)
    ensures TapeOf(z, r) in AnswerTapes(count, v, rounds, m)
  {
    hide NoiseTapes, TapeOf, Clamp;
    if Abs(z) < m {
      NoiseAnswerTape(count, v, rounds, m - 1, z, r);
    } else {
      assert Yields(TapeOf(z, r), z, r);
      InNoiseTapes(z, rounds, TapeOf(z, r));
    }
  }

  lemma TapesOfDifferentNoise(z: int, r: nat, z': int, r': nat)
    requires TapeOf(z, r) == TapeOf(z', r')
    ensures z == z' && r == r'
  {
    SampleOfTape(z, r, []);
    SampleOfTape(z', r', []);
    hide TapeOf, Sample;
    assert TapeOf(z, r) + [] == TapeOf(z, r) && TapeOf(z', r') + [] == TapeOf(z', r');
    TapesDiffer(z, r, r');
  }

  lemma NotAmong(z: int, r: nat, z': int, rounds: nat)
    requires z != z' || rounds <= r
    ensures TapeOf(z, r) !in NoiseTapes(z', rounds)
  {
    InNoiseTapes(z', rounds, TapeOf(z, r));
    hide TapeOf, NoiseTapes;
    if TapeOf(z, r) in NoiseTapes(z', rounds) {
      var r': nat :| r' < rounds && Yields(TapeOf(z, r), z', r');
      TapesOfDifferentNoise(z, r, z', r');
    }
  }

  lemma {:induction false} NoiseTapesDistinct(z: int, rounds: nat)
    ensures AllDistinct(NoiseTapes(z, rounds))
  {
    if rounds > 0 {
      NoiseTapesDistinct(z, rounds - 1);
      NotAmong(z, rounds - 1, z, rounds - 1);
      hide TapeOf;
      DistinctConcat(NoiseTapes(z, rounds - 1), [TapeOf(z, rounds - 1)]);
    }
  }

  lemma {:induction false} AnswerTapesDistinct(count: nat, v: nat, rounds: nat, m: nat)
    ensures AllDistinct(AnswerTapes(count, v, rounds, m))
  {
    hide NoiseTapes, TapeOf;
    NoiseTapesDistinct(m, rounds);
    NoiseTapesDistinct(-(m as int), rounds);
    if m > 0 {
      AnswerTapesDistinct(count, v, rounds, m - 1);
      var inner := AnswerTapes(count, v, rounds, m - 1);
      var plus := if Clamp(count, m) == v then NoiseTapes(m, rounds) else [];
      var minus := if Clamp(count, -(m as int)) == v then NoiseTapes(-(m as int), rounds) else [];
      forall t | t in inner ensures t !in NoiseTapes(m, rounds) && t !in NoiseTapes(-(m as int), rounds) {
        var z, r := AnswerTapeNoise(count, v, rounds, m - 1, t);
        NotAmong(z, r, m, rounds);
        NotAmong(z, r, -(m as int), rounds);
      }
      forall t | t in plus ensures t !in NoiseTapes(-(m as int), rounds) {
        InNoiseTapes(m, rounds, t);
        var r: nat :| r < rounds && Yields(t, m, r);
        NotAmong(m, r, -(m as int), rounds);
      }
      DistinctConcat(inner, plus);
      DistinctConcat(inner + plus, minus);
    }
  }

  lemma {:induction false} NoiseTapesWeight(z: int, rounds: nat)
    ensures AllFair(NoiseTapes(z, rounds)) && SumWeight(NoiseTapes(z, rounds)) == Mass(z, rounds)
  {
    hide Weight, FairTape, TapeOf;
    if rounds > 0 {
      var last := TapeOf(z, rounds - 1);
      NoiseTapesWeight(z, rounds - 1);
      TapeLength(z, rounds - 1);
      assert [last][1..] == [];
      SumConcat(NoiseTapes(z, rounds - 1), [last]);
    }
  }

  /** Together they weigh (1 - 4^-R) times the probabilities of the noise values counted. */
  lemma {:induction false} AnswerTapesWeight(count: nat, v: nat, rounds: nat, m: nat)
    ensures AllFair(AnswerTapes(count, v, rounds, m))
    ensures IsProduct(SumWeight(AnswerTapes(count, v, rounds, m)), 1.0 - Quarter(rounds), PartialMass(count, v, m))
  {
    hide Weight, FairTape, AllFair, NoiseTapes, Probability, Mass, Quarter, SumWeight, IsProduct;
    var q := 1.0 - Quarter(rounds);
    var inner, before := [], 0.0;
    if m > 0 {
      AnswerTapesWeight(count, v, rounds, m - 1);
      inner, before := AnswerTapes(count, v, rounds, m - 1), PartialMass(count, v, m - 1);
    } else {
      NoWeight(q);
    }
    var plus, p := NoiseShare(m, rounds, Clamp(count, m) == v);
    var minus, n := NoiseShare(-(m as int), rounds, m > 0 && Clamp(count, -(m as int)) == v);
    AddShare(q, inner, before, plus, p);
    AddShare(q, inner + plus, before + p, minus, n);
  }

  lemma NoWeight(q: real)
    ensures AllFair([]) && IsProduct(SumWeight([]), q, 0.0)
  {
  }

  lemma AddShare(q: real, a: seq<Tape>, x: real, b: seq<Tape>, y: real)
    requires AllFair(a) && AllFair(b) && IsProduct(SumWeight(a), q, x) && IsProduct(SumWeight(b), q, y)
    ensures AllFair(a + b) && IsProduct(SumWeight(a + b), q, x + y)
  {
    SumConcat(a, b);
    hide SumWeight, AllFair;
  }

  lemma NoiseShare(z: int, rounds: nat, counted: bool) returns (ts: seq<Tape>, p: real)
    ensures ts == if counted then NoiseTapes(z, rounds) else []
    ensures p == if counted then Probability(z) else 0.0
    ensures AllFair(ts) && IsProduct(SumWeight(ts), 1.0 - Quarter(rounds), p)
  {
    ts, p := if counted then NoiseTapes(z, rounds) else [], if counted then Probability(z) else 0.0;
    if counted {
      NoiseTapesWeight(z, rounds);
      MassIsExact(z, rounds);
    }
  }

  // ---------- The tapes of a batch ----------

  ghost function Extend(a: Tape, bs: seq<Tape>): seq<Tape> {
    if bs == [] then [] else [a + bs[0]] + Extend(a, bs[1..])
  }

  /** Every tape of the first list followed by every tape of the second. */
  ghost function Cross(ts: seq<Tape>, bs: seq<Tape>): seq<Tape> {
    if ts == [] then [] else Extend(ts[0], bs) + Cross(ts[1..], bs)
  }

  /** The tapes on which counts are answered by `vs`, within the given rounds and noise range. */
  ghost function BatchTapes(counts: seq<nat>, vs: seq<nat>, rounds: nat, m: nat): seq<Tape>
    requires |counts| == |vs|
  {
    if counts == [] then [[]]
    else
      var n := |counts| - 1;
      Cross(BatchTapes(counts[..n], vs[..n], rounds, m), AnswerTapes(counts[n], vs[n], rounds, m))
  }

  /** The mass one answer should have, and a batch: a product over the answers. */
  ghost function AnswerMass(count: nat, v: nat, rounds: nat, m: nat): real {
    (1.0 - Quarter(rounds)) * PartialMass(count, v, m)
  }

  ghost function TapeMass(counts: seq<nat>, vs: seq<nat>, rounds: nat, m: nat): real
    requires |counts| == |vs|
  {
    if counts == [] then 1.0
    else
      var n := |counts| - 1;
      TapeMass(counts[..n], vs[..n], rounds, m) * AnswerMass(counts[n], vs[n], rounds, m)
  }

  lemma TapeStep(counts: seq<nat>, vs: seq<nat>, rounds: nat, m: nat)
    requires |counts| == |vs| && counts != []
    ensures var n := |counts| - 1;
      IsProduct(TapeMass(counts, vs, rounds, m), TapeMass(counts[..n], vs[..n], rounds, m), AnswerMass(counts[n], vs[n], rounds, m))
  {
    hide AnswerMass;
  }

  lemma {:induction false} InExtend(a: Tape, bs: seq<Tape>, t: Tape)
    ensures t in Extend(a, bs) <==> exists b :: b in bs && t == a + b
  {
    if bs != [] {
      assert bs[0] in bs;
      InExtend(a, bs[1..], t);
    }
  }

  lemma {:induction false} InCross(ts: seq<Tape>, bs: seq<Tape>, t: Tape)
    ensures t in Cross(ts, bs) <==> exists a, b :: a in ts && b in bs && t == a + b
  {
    if ts != [] {
      assert ts[0] in ts;
      InExtend(ts[0], bs, t);
      InCross(ts[1..], bs, t);
    }
  }

  lemma {:induction false} ExtendWeight(a: Tape, bs: seq<Tape>)
    requires FairTape(a) && AllFair(bs)
    ensures AllFair(Extend(a, bs)) && SumWeight(Extend(a, bs)) == Weight(a) * SumWeight(bs)
  {
    hide Weight, FairTape;
    if bs != [] {
      assert bs[0] in bs;
      ExtendWeight(a, bs[1..]);
      WeightConcat(a, bs[0]);
      var rest := Extend(a, bs[1..]);
      assert ([a + bs[0]] + rest)[1..] == rest;
      assert Weight(a) * Weight(bs[0]) + Weight(a) * SumWeight(bs[1..]) == Weight(a) * SumWeight(bs);
    }
  }

  lemma {:induction false} CrossWeight(ts: seq<Tape>, bs: seq<Tape>)
    requires AllFair(ts) && AllFair(bs)
    ensures AllFair(Cross(ts, bs)) && IsProduct(SumWeight(Cross(ts, bs)), SumWeight(ts), SumWeight(bs))
  {
    hide SumWeight, Extend, AllFair, FairTape, Weight;
    if ts == [] {
      NoCross(SumWeight(bs));
    } else {
      SumStep(ts);
      ExtendWeight(ts[0], bs);
      CrossWeight(ts[1..], bs);
      SumConcat(Extend(ts[0], bs), Cross(ts[1..], bs));
      AddProducts(SumWeight(Extend(ts[0], bs)), Weight(ts[0]), SumWeight(Cross(ts[1..], bs)), SumWeight(ts[1..]), SumWeight(bs));
    }
  }

  lemma NoCross(c: real)
    ensures AllFair([]) && IsProduct(SumWeight([]), SumWeight([]), c)
  {
  }

  lemma SumStep(ts: seq<Tape>)
    requires AllFair(ts) && ts != []
    ensures FairTape(ts[0]) && AllFair(ts[1..]) && SumWeight(ts) == Weight(ts[0]) + SumWeight(ts[1..])
  {
    assert ts[0] in ts;
  }

  lemma AddProducts(x: real, a: real, y: real, b: real, c: real)
    requires x == a * c && IsProduct(y, b, c)
    ensures IsProduct(x + y, a + b, c)
  {
  }

  lemma OneEmptyTape()
    ensures AllFair([[]]) && SumWeight([[]]) == 1.0
  {
    var empty: seq<Tape> := [[]];
    assert empty[1..] == [];
    EmptyWeight();
  }

  /** The tapes of a batch weigh exactly the product of (1 - 4^-R) times the partial masses. */
  lemma {:induction false} BatchTapesWeight(counts: seq<nat>, vs: seq<nat>, rounds: nat, m: nat)
    requires |counts| == |vs|
    ensures AllFair(BatchTapes(counts, vs, rounds, m))
    ensures SumWeight(BatchTapes(counts, vs, rounds, m)) == TapeMass(counts, vs, rounds, m)
    decreases |counts|
  {
    hide Weight, FairTape, AnswerTapes, PartialMass, SumWeight, Quarter, Cross;
    if counts == [] {
      OneEmptyTape();
    } else {
      var n := |counts| - 1;
      BatchTapesWeight(counts[..n], vs[..n], rounds, m);
      AnswerTapesWeight(counts[n], vs[n], rounds, m);
      CrossWeight(BatchTapes(counts[..n], vs[..n], rounds, m), AnswerTapes(counts[n], vs[n], rounds, m));
    }
  }

  // ---------- They are all the tapes, and no two of them overlap ----------

  /** A fair tape on which consecutive samples answer the counts with `vs` and use every draw. */
  ghost predicate AnswersOn(t: Tape, counts: seq<nat>, vs: seq<nat>) {
    && FairTape(t)
    && match SampleMany(t, |counts|)
       case None => false
       case Some((zs, used)) => used == |t| && ClampAll(counts, zs) == vs
  }

  ghost predicate Produces(t: Tape, zs: seq<int>, rejected: seq<nat>, counts: seq<nat>, vs: seq<nat>, rounds: nat, m: nat) {
    && |zs| == |rejected| == |counts| && t == TapesOf(zs, rejected) && ClampAll(counts, zs) == vs
    && forall i :: 0 <= i < |zs| ==> Abs(zs[i]) <= m && rejected[i] < rounds
  }

  lemma {:induction false} ListedIsProduced(counts: seq<nat>, vs: seq<nat>, rounds: nat, m: nat, t: Tape)
    returns (zs: seq<int>, rejected: seq<nat>)
    requires |counts| == |vs| && t in BatchTapes(counts, vs, rounds, m)
    ensures Produces(t, zs, rejected, counts, vs, rounds, m)
    decreases |counts|
  {
    if counts == [] {
      zs, rejected := [], [];
    } else {
      hide TapeOf, Cross, AnswerTapes, Produces, Abs, Clamp;
      var n := |counts| - 1;
      InCross(BatchTapes(counts[..n], vs[..n], rounds, m), AnswerTapes(counts[n], vs[n], rounds, m), t);
      var a, b :| a in BatchTapes(counts[..n], vs[..n], rounds, m) && b in AnswerTapes(counts[n], vs[n], rounds, m) && t == a + b;
      hide BatchTapes;
      zs, rejected := ListedIsProduced(counts[..n], vs[..n], rounds, m, a);
      var z, r := AnswerTapeNoise(counts[n], vs[n], rounds, m, b);
      ProduceMore(a, zs, rejected, counts, vs, rounds, m, b, z, r);
      zs, rejected := zs + [z], rejected + [r];
    }
  }

  lemma ProduceMore(a: Tape, zs: seq<int>, rejected: seq<nat>, counts: seq<nat>, vs: seq<nat>, rounds: nat, m: nat,
                    b: Tape, z: int, r: nat)
    requires |counts| == |vs| && counts != []
    requires var n := |counts| - 1;
      Produces(a, zs, rejected, counts[..n], vs[..n], rounds, m) && Counted(z, r, counts[n], vs[n], rounds, m)
    requires Yields(b, z, r)
    ensures Produces(a + b, zs + [z], rejected + [r], counts, vs, rounds, m)
  {
    hide TapeOf, Abs, Clamp, TapesOf, ClampAll;
    var n := |counts| - 1;
    assert (zs + [z])[..n] == zs && (rejected + [r])[..n] == rejected;
    LastTape(zs + [z], rejected + [r]);
    ClampLast(counts, zs + [z], vs);
  }

  lemma ClampLast(counts: seq<nat>, zs: seq<int>, vs: seq<nat>)
    requires |counts| == |zs| == |vs| && counts != []
    ensures var n := |counts| - 1;
      ClampAll(counts, zs) == vs <==> ClampAll(counts[..n], zs[..n]) == vs[..n] && Clamp(counts[n], zs[n]) == vs[n]
  {
    var n := |counts| - 1;
    assert ClampAll(counts, zs) == ClampAll(counts[..n], zs[..n]) + [Clamp(counts[n], zs[n])];
    assert vs == vs[..n] + [vs[n]];
  }

  lemma {:induction false} ProducedIsListed(t: Tape, zs: seq<int>, rejected: seq<nat>, counts: seq<nat>, vs: seq<nat>,
                                            rounds: nat, m: nat)
    requires Produces(t, zs, rejected, counts, vs, rounds, m)
    ensures |counts| == |vs| && t in BatchTapes(counts, vs, rounds, m)
    decreases |counts|
  {
    hide TapeOf, Cross, AnswerTapes;
    if counts != [] {
      var n := |counts| - 1;
      LastTape(zs, rejected);
      ClampLast(counts, zs, vs);
      ProducedIsListed(TapesOf(zs[..n], rejected[..n]), zs[..n], rejected[..n], counts[..n], vs[..n], rounds, m);
      NoiseAnswerTape(counts[n], vs[n], rounds, m, zs[n], rejected[n]);
      InCross(BatchTapes(counts[..n], vs[..n], rounds, m), AnswerTapes(counts[n], vs[n], rounds, m), t);
    }
  }

  /** What consecutive samples read off a fair tape is the tape of their noise and some rejections. */
  lemma {:induction false} TapesAreTapesOf(tape: Tape, zs: seq<int>, used: nat) returns (rejected: seq<nat>)
    requires FairTape(tape) && SampleMany(tape, |zs|) == Some((zs, used))
    ensures |rejected| == |zs| && used <= |tape| && tape[..used] == TapesOf(zs, rejected)
    decreases |zs|
  {
    hide TapeOf, Sample;
    if zs == [] {
      rejected := [];
    } else {
      var n := |zs| - 1;
      var before := SampleMany(tape, n).value;
      assert zs[..n] == before.0;
      var first := TapesAreTapesOf(tape, zs[..n], before.1);
      var r := TapeIsTapeOf(tape[before.1..], zs[n], used - before.1);
      rejected := first + [r];
      LastTape(zs, rejected);
      assert rejected[..n] == first;
      assert tape[..used] == tape[..before.1] + tape[before.1..][..used - before.1];
    }
  }

  /** Those rejections are unique. */
  lemma {:induction false} RejectionsAreUnique(zs: seq<int>, r: seq<nat>, s: seq<nat>)
    requires |r| == |s| == |zs| && TapesOf(zs, r) == TapesOf(zs, s)
    ensures r == s
    decreases |zs|
  {
    hide TapeOf, TapesOf, SampleMany;
    if zs != [] {
      var n := |zs| - 1;
      LastTape(zs, r);
      LastTape(zs, s);
      var a, b := TapeOf(zs[n], r[n]), TapeOf(zs[n], s[n]);
      ManySamples(zs[..n], r[..n], a);
      ManySamples(zs[..n], s[..n], b);
      var t := TapesOf(zs, r);
      assert t[..|TapesOf(zs[..n], r[..n])|] == TapesOf(zs[..n], r[..n]) == TapesOf(zs[..n], s[..n]);
      assert a == t[|TapesOf(zs[..n], r[..n])|..] == b;
      RejectionsAreUnique(zs[..n], r[..n], s[..n]);
      TapesDiffer(zs[n], r[n], s[n]);
    }
  }

  /** A tape is longer than each of its noise values and rejection counts. */
  lemma {:induction false} TapesLength(zs: seq<int>, rejected: seq<nat>)
    requires |zs| == |rejected|
    ensures forall i :: 0 <= i < |zs| ==> rejected[i] + 1 + Abs(zs[i]) <= |TapesOf(zs, rejected)|
    decreases |zs|
  {
    hide TapeOf, TapesOf;
    if zs != [] {
      var n := |zs| - 1;
      LastTape(zs, rejected);
      TapesLength(zs[..n], rejected[..n]);
      TapeLength(zs[n], rejected[n]);
    }
  }

  /** Every listed tape answers the counts with `vs`, and every tape that does so is listed as
      soon as the limits reach its length. */
  lemma ListedIffAnswers(counts: seq<nat>, vs: seq<nat>, rounds: nat, m: nat, t: Tape)
    requires |counts| == |vs|
    ensures t in BatchTapes(counts, vs, rounds, m) ==> AnswersOn(t, counts, vs)
    ensures AnswersOn(t, counts, vs) && |t| <= rounds && |t| <= m ==> t in BatchTapes(counts, vs, rounds, m)
  {
    hide BatchTapes, TapesOf, SampleMany;
    if t in BatchTapes(counts, vs, rounds, m) {
      var zs, rejected := ListedIsProduced(counts, vs, rounds, m, t);
      ManySamples(zs, rejected, []);
      assert t + [] == t;
    }
    if AnswersOn(t, counts, vs) && |t| <= rounds && |t| <= m {
      var zs := SampleMany(t, |counts|).value.0;
      var rejected := TapesAreTapesOf(t, zs, |t|);
      assert t[..|t|] == t;
      TapesLength(zs, rejected);
      ProducedIsListed(t, zs, rejected, counts, vs, rounds, m);
    }
  }

  /** No tape continues another, so they stand for disjoint events of the random source. */
  ghost predicate PrefixFree(ts: seq<Tape>) {
    forall a, b :: a in ts && b in ts && a <= b ==> a == b
  }

  lemma AnswersArePrefixFree(a: Tape, b: Tape, counts: seq<nat>, vs: seq<nat>, us: seq<nat>)
    requires AnswersOn(a, counts, vs) && AnswersOn(b, counts, us) && a <= b
    ensures a == b && vs == us
  {
    hide TapesOf, SampleMany;
    var zs := SampleMany(a, |counts|).value.0;
    var rejected := TapesAreTapesOf(a, zs, |a|);
    assert a[..|a|] == a;
    ManySamples(zs, rejected, b[|a|..]);
    assert a + b[|a|..] == b;
  }

  lemma {:induction false} ExtendSuffix(a: Tape, bs: seq<Tape>, t: Tape)
    requires t in Extend(a, bs)
    ensures |a| <= |t| && t[|a|..] in bs
  {
    assert (a + bs[0])[|a|..] == bs[0];
    if t != a + bs[0] {
      ExtendSuffix(a, bs[1..], t);
    }
  }

  lemma {:induction false} ExtendDistinct(a: Tape, bs: seq<Tape>)
    requires AllDistinct(bs)
    ensures AllDistinct(Extend(a, bs))
  {
    if bs != [] {
      var rest := Extend(a, bs[1..]);
      ExtendDistinct(a, bs[1..]);
      assert (a + bs[0])[|a|..] == bs[0];
      assert a + bs[0] in rest ==> bs[0] in bs[1..] by {
        if a + bs[0] in rest {
          ExtendSuffix(a, bs[1..], a + bs[0]);
        }
      }
      DistinctConcat([a + bs[0]], rest);
    }
  }

  lemma {:induction false} CrossDistinct(ts: seq<Tape>, bs: seq<Tape>)
    requires AllDistinct(ts) && AllDistinct(bs) && PrefixFree(ts)
    ensures AllDistinct(Cross(ts, bs))
  {
    hide Extend;
    if ts != [] {
      assert ts[0] in ts && forall t :: t in ts[1..] ==> t in ts;
      ExtendDistinct(ts[0], bs);
      CrossDistinct(ts[1..], bs);
      forall t | t in Extend(ts[0], bs) ensures t !in Cross(ts[1..], bs) {
        NotInRest(ts, bs, t);
      }
      DistinctConcat(Extend(ts[0], bs), Cross(ts[1..], bs));
    }
  }

  lemma SameFirst(ts: seq<Tape>, a: Tape, b: Tape, a': Tape, b': Tape)
    requires PrefixFree(ts) && a in ts && a' in ts && a + b == a' + b'
    ensures a == a'
  {
    var t := a + b;
    assert a == t[..|a|] && a' == t[..|a'|];
    assert if |a| <= |a'| then a <= a' else a' <= a;
  }

  lemma NotInRest(ts: seq<Tape>, bs: seq<Tape>, t: Tape)
    requires ts != [] && AllDistinct(ts) && PrefixFree(ts) && t in Extend(ts[0], bs)
    ensures t !in Cross(ts[1..], bs)
  {
    hide Extend, Cross, PrefixFree;
    InExtend(ts[0], bs, t);
    InCross(ts[1..], bs, t);
    var b :| b in bs && t == ts[0] + b;
    if a', b' :| a' in ts[1..] && b' in bs && t == a' + b' {
      SameFirst(ts, ts[0], b, a', b');
    }
  }

  lemma {:induction false} BatchTapesDistinct(counts: seq<nat>, vs: seq<nat>, rounds: nat, m: nat)
    requires |counts| == |vs|
    ensures AllDistinct(BatchTapes(counts, vs, rounds, m)) && PrefixFree(BatchTapes(counts, vs, rounds, m))
    decreases |counts|
  {
    hide AnswerTapes, Cross, AnswersOn;
    forall a, b | a in BatchTapes(counts, vs, rounds, m) && b in BatchTapes(counts, vs, rounds, m) && a <= b ensures a == b {
      ListedIffAnswers(counts, vs, rounds, m, a);
      ListedIffAnswers(counts, vs, rounds, m, b);
      AnswersArePrefixFree(a, b, counts, vs, vs);
    }
    if counts != [] {
      var n := |counts| - 1;
      BatchTapesDistinct(counts[..n], vs[..n], rounds, m);
      AnswerTapesDistinct(counts[n], vs[n], rounds, m);
      CrossDistinct(BatchTapes(counts[..n], vs[..n], rounds, m), AnswerTapes(counts[n], vs[n], rounds, m));
    }
  }

  // ---------- What one record changes ----------

  ghost predicate Within(x: real, factor: real, y: real) {
    0.0 <= x <= factor * y
  }

  /** How many entries differ. */
  ghost function Changed(counts: seq<nat>, counts': seq<nat>): nat
    requires |counts| == |counts'|
  {
    if counts == [] then 0
    else
      var n := |counts| - 1;
      Changed(counts[..n], counts'[..n]) + if counts[n] == counts'[n] then 0 else 1
  }

  lemma PartialRatio(count: nat, count': nat, v: nat, m: nat)
    requires count' <= count + 1 && count <= count' + 1
    ensures Within(PartialMass(count, v, m), if count == count' then 1.0 else 2.0, PartialMass(count', v, m + 1))
  {
    hide PartialMass;
    ClampMassIsTheSum(count, v, m);
    ClampMassIsTheSum(count', v, m + 1);
    if v > 0 {
      CountIsPrivate(count, count', v);
    } else {
      hide ClampMass;
      PartialZero(count, count', m);
    }
  }

  lemma PartialZero(count: nat, count': nat, m: nat)
    requires count' <= count + 1 && count <= count' + 1
    ensures m >= count ==>
      0.0 <= ClampMass(count, 0) - Half(m) / 3.0
          <= (if count == count' then 1.0 else 2.0) * (ClampMass(count', 0) - Half(m + 1) / 3.0)
    ensures m + 1 >= count' ==> 0.0 <= ClampMass(count', 0) - Half(m + 1) / 3.0
  {
    CountIsPrivate(count, count', 0);
    if m >= count {
      HalfFalls(count, m);
    }
    if m + 1 >= count' {
      HalfFalls(count', m + 1);
    }
  }

  lemma HalfFalls(a: nat, b: nat)
    requires a <= b
    ensures Half(b) <= Half(a)
  {
  }

  lemma AnswerStep(count: nat, v: nat, rounds: nat, m: nat)
    ensures IsProduct(AnswerMass(count, v, rounds, m), 1.0 - Quarter(rounds), PartialMass(count, v, m))
  {
    hide PartialMass, Quarter;
  }

  lemma AnswerRatio(count: nat, count': nat, v: nat, rounds: nat, m: nat)
    requires count' <= count + 1 && count <= count' + 1
    ensures Within(AnswerMass(count, v, rounds, m), if count == count' then 1.0 else 2.0, AnswerMass(count', v, rounds, m + 1))
  {
    hide *;
    PartialRatio(count, count', v, m);
    AnswerStep(count, v, rounds, m);
    AnswerStep(count', v, rounds, m + 1);
    var f := if count == count' then 1.0 else 2.0;
    ScaledRatio(1.0 - Quarter(rounds), f, PartialMass(count, v, m), PartialMass(count', v, m + 1),
                AnswerMass(count, v, rounds, m), AnswerMass(count', v, rounds, m + 1));
  }

  lemma ScaledRatio(q: real, f: real, c: real, d: real, x: real, y: real)
    requires 0.0 <= q && Within(c, f, d) && IsProduct(x, q, c) && IsProduct(y, q, d)
    ensures Within(x, f, y)
  {
    var fd := f * d;
    assert 0.0 <= q * c <= q * fd;
    assert q * (f * d) == f * (q * d);
  }

  /** Counts that move by one each: the mass of the tapes at most doubles with every move, the
      noise range being wider by one on the other side. */
  lemma {:induction false} TapeRatio(counts: seq<nat>, counts': seq<nat>, vs: seq<nat>, rounds: nat, m: nat)
    requires |counts| == |counts'| == |vs|
    requires forall i :: 0 <= i < |counts| ==> counts[i] <= counts'[i] + 1 && counts'[i] <= counts[i] + 1
    ensures Within(TapeMass(counts, vs, rounds, m), Power2(Changed(counts, counts')), TapeMass(counts', vs, rounds, m + 1))
    decreases |counts|
  {
    if counts != [] {
      var n := |counts| - 1;
      TapeStep(counts, vs, rounds, m);
      TapeStep(counts', vs, rounds, m + 1);
      var p := Power2(Changed(counts[..n], counts'[..n]));
      var f := ChangedStep(counts, counts');
      hide *;
      TapeRatio(counts[..n], counts'[..n], vs[..n], rounds, m);
      AnswerRatio(counts[n], counts'[n], vs[n], rounds, m);
      ComposeRatios(p, f,
                    TapeMass(counts[..n], vs[..n], rounds, m), TapeMass(counts'[..n], vs[..n], rounds, m + 1),
                    AnswerMass(counts[n], vs[n], rounds, m), AnswerMass(counts'[n], vs[n], rounds, m + 1),
                    TapeMass(counts, vs, rounds, m), TapeMass(counts', vs, rounds, m + 1),
                    Power2(Changed(counts, counts')));
    }
  }

  lemma ChangedStep(counts: seq<nat>, counts': seq<nat>) returns (f: real)
    requires |counts| == |counts'| && counts != []
    ensures var n := |counts| - 1;
      && f == (if counts[n] == counts'[n] then 1.0 else 2.0)
      && IsProduct(Power2(Changed(counts, counts')), f, Power2(Changed(counts[..n], counts'[..n])))
  {
    var n := |counts| - 1;
    f := if counts[n] == counts'[n] then 1.0 else 2.0;
  }

  lemma ComposeRatios(p: real, f: real, a: real, b: real, c: real, d: real, x: real, y: real, fp: real)
    requires Within(a, p, b) && Within(c, f, d) && IsProduct(x, a, c) && IsProduct(y, b, d) && IsProduct(fp, f, p)
    ensures Within(x, fp, y)
  {
    var pb, fd := p * b, f * d;
    assert 0.0 <= a * c <= pb * c <= pb * fd;
    assert (p * b) * (f * d) == f * p * (b * d);
  }

  lemma {:induction false} ChangedAtMost(counts: seq<nat>, counts': seq<nat>)
    requires |counts| == |counts'|
    ensures Changed(counts, counts') <= |counts|
    decreases |counts|
  {
    if counts != [] {
      ChangedAtMost(counts[..|counts| - 1], counts'[..|counts| - 1]);
    }
  }

  lemma {:induction false} ChangedAtOne(counts: seq<nat>, counts': seq<nat>, k: nat)
    requires |counts| == |counts'| && forall i :: 0 <= i < |counts| && i != k ==> counts[i] == counts'[i]
    ensures Changed(counts, counts') <= if k < |counts| then 1 else 0
    decreases |counts|
  {
    if counts != [] {
      ChangedAtOne(counts[..|counts| - 1], counts'[..|counts| - 1], k);
    }
  }

  lemma PowerGrows(m: nat, n: nat)
    requires m <= n
    ensures 0.0 < Power2(m) <= Power2(n)
  {
  }

  // ---------- The joint probability is the limit of the tapes' weight ----------

  lemma SmallHalf(slack: real) returns (n: nat)
    requires slack > 0.0
    ensures Half(n) <= slack
  {
    n := (1.0 / slack).Floor;
    HalfVanishes(n);
    var k := n as real + 1.0;
    assert slack * k >= 1.0 >= Half(n) * k;
    hide Half;
  }

  lemma QuarterBelowHalf(n: nat)
    ensures Quarter(n) <= Half(n)
  {
  }

  ghost predicate Close(x: real, y: real, slack: real) {
    0.0 <= x && y - slack <= x <= y <= 1.0
  }

  lemma PartialClose(count: nat, v: nat, m: nat, slack: real)
    requires count <= m && Abs(v - count) <= m && Half(m) <= slack
    ensures Close(PartialMass(count, v, m), ClampMass(count, v), slack)
  {
    hide PartialMass;
    ClampMassIsTheSum(count, v, m);
    HalfFalls(count, m);
  }

  lemma AnswerClose(count: nat, v: nat, rounds: nat, m: nat, slack: real)
    requires count <= m && Abs(v - count) <= m && Half(m) <= slack / 2.0 && Half(rounds) <= slack / 2.0
    ensures Close(AnswerMass(count, v, rounds, m), ClampMass(count, v), slack)
  {
    PartialClose(count, v, m, slack / 2.0);
    QuarterBelowHalf(rounds);
    AnswerStep(count, v, rounds, m);
    hide *;
    Shrunk(Quarter(rounds), PartialMass(count, v, m), AnswerMass(count, v, rounds, m), ClampMass(count, v), slack / 2.0);
  }

  lemma AnswerConverges(count: nat, v: nat, slack: real) returns (limit: nat)
    requires slack > 0.0
    ensures forall rounds, m :: rounds >= limit && m >= limit ==>
      Close(AnswerMass(count, v, rounds, m), ClampMass(count, v), slack)
  {
    var n := SmallHalf(slack / 2.0);
    limit := n + count + Abs(v - count);
    hide *;
    forall rounds, m | rounds >= limit && m >= limit
      ensures Close(AnswerMass(count, v, rounds, m), ClampMass(count, v), slack)
    {
      HalfFalls(n, m);
      HalfFalls(n, rounds);
      AnswerClose(count, v, rounds, m, slack);
    }
  }

  lemma Shrunk(q: real, p: real, x: real, c: real, slack: real)
    requires 0.0 <= q <= 1.0 && q <= slack && Close(p, c, slack) && IsProduct(x, 1.0 - q, p)
    ensures Close(x, c, 2.0 * slack)
  {
    var lost := Complement(q, p, x);
  }

  lemma Complement(q: real, p: real, x: real) returns (lost: real)
    requires 0.0 <= q <= 1.0 && 0.0 <= p <= 1.0 && IsProduct(x, 1.0 - q, p)
    ensures x == p - lost && 0.0 <= lost <= q && lost <= p
  {
    lost := q * p;
    Shrinks(q, p, q);
    Shrinks(p, q, p);
    assert lost == p * q && q * p + (1.0 - q) * p == p;
  }

  lemma TapeMassClose(counts: seq<nat>, vs: seq<nat>, rounds: nat, m: nat, slack: real)
    requires |counts| == |vs| && counts != []
    requires var n := |counts| - 1;
      && Close(TapeMass(counts[..n], vs[..n], rounds, m), BatchMass(counts[..n], vs[..n]), slack)
      && Close(AnswerMass(counts[n], vs[n], rounds, m), ClampMass(counts[n], vs[n]), slack)
    ensures Close(TapeMass(counts, vs, rounds, m), BatchMass(counts, vs), 2.0 * slack)
  {
    var n := |counts| - 1;
    TapeStep(counts, vs, rounds, m);
    var b, c := BatchStep(counts, vs);
    hide *;
    CloseProducts(TapeMass(counts[..n], vs[..n], rounds, m), b, AnswerMass(counts[n], vs[n], rounds, m), c, slack,
                  TapeMass(counts, vs, rounds, m), BatchMass(counts, vs));
  }

  /** `BatchMass` is what the weights of the tapes tend to: they never exceed it, and they come
      arbitrarily close once the limits on rounds and noise are large enough. */
  lemma {:induction false} TapeMassConverges(counts: seq<nat>, vs: seq<nat>, slack: real) returns (limit: nat)
    requires |counts| == |vs| && slack > 0.0
    ensures forall rounds, m :: rounds >= limit && m >= limit ==>
      Close(TapeMass(counts, vs, rounds, m), BatchMass(counts, vs), slack)
    decreases |counts|
  {
    if counts == [] {
      limit := 0;
    } else {
      hide *;
      var n := |counts| - 1;
      var first := TapeMassConverges(counts[..n], vs[..n], slack / 2.0);
      var last := AnswerConverges(counts[n], vs[n], slack / 2.0);
      limit := if first > last then first else last;
      forall rounds, m | rounds >= limit && m >= limit
        ensures Close(TapeMass(counts, vs, rounds, m), BatchMass(counts, vs), slack)
      {
        TapeMassClose(counts, vs, rounds, m, slack / 2.0);
      }
    }
  }

  lemma Shrinks(a: real, f: real, bound: real)
    requires 0.0 <= a <= bound && 0.0 <= f <= 1.0
    ensures 0.0 <= a * f <= bound
  {
    assert a * f <= a * 1.0;
  }

  lemma CloseProducts(x: real, b: real, y: real, c: real, slack: real, xy: real, bc: real)
    requires Close(x, b, slack) && Close(y, c, slack) && IsProduct(xy, x, y) && IsProduct(bc, b, c)
    ensures Close(xy, bc, 2.0 * slack)
  {
    assert b * c - x * y == (b - x) * c + x * (c - y);
    Shrinks(b - x, c, slack);
    Shrinks(c - y, x, slack);
    Shrinks(x, y, 1.0);
    Shrinks(b, c, 1.0);
  }

  // ---------- The releases ----------

  /** What the tapes of a batch weigh together. */
  ghost function TapesWeight(counts: seq<nat>, vs: seq<nat>, rounds: nat, m: nat): real
    requires |counts| == |vs|
  {
    BatchTapesWeight(counts, vs, rounds, m);
    SumWeight(BatchTapes(counts, vs, rounds, m))
  }

  /** Distinct tapes none of which continues another: disjoint events of the random source. */
  ghost predicate Disjoint(ts: seq<Tape>) {
    AllDistinct(ts) && PrefixFree(ts)
  }

  ghost predicate Reaches(counts: seq<nat>, vs: seq<nat>, slack: real, limit: nat)
    requires |counts| == |vs|
  {
    forall rounds, m :: rounds >= limit && m >= limit ==> Close(TapesWeight(counts, vs, rounds, m), BatchMass(counts, vs), slack)
  }

  ghost predicate IsReached(counts: seq<nat>, vs: seq<nat>, slack: real)
    requires |counts| == |vs|
  {
    exists limit: nat :: Reaches(counts, vs, slack, limit)
  }

  /** The probability of the answers `vs`, derived: the listed tapes are disjoint events on which
      the samples give these answers, every such tape is listed once the limits reach its length,
      the weights add up to the product of (1 - 4^-R) times the partial masses, and with growing
      limits they tend to `BatchMass` from below. */
  lemma BatchMassIsProbability(counts: seq<nat>, vs: seq<nat>, rounds: nat, m: nat)
    requires |counts| == |vs|
    ensures var ts := BatchTapes(counts, vs, rounds, m);
      && Disjoint(ts)
      && (forall t :: t in ts ==> AnswersOn(t, counts, vs))
      && (forall t :: AnswersOn(t, counts, vs) && |t| <= rounds && |t| <= m ==> t in ts)
    ensures TapesWeight(counts, vs, rounds, m) == TapeMass(counts, vs, rounds, m)
    ensures forall slack :: slack > 0.0 ==> IsReached(counts, vs, slack)
  {
    hide AnswersOn, BatchTapes, TapeMass, Close;
    BatchTapesDistinct(counts, vs, rounds, m);
    forall t
      ensures t in BatchTapes(counts, vs, rounds, m) ==> AnswersOn(t, counts, vs)
      ensures AnswersOn(t, counts, vs) && |t| <= rounds && |t| <= m ==> t in BatchTapes(counts, vs, rounds, m)
    {
      ListedIffAnswers(counts, vs, rounds, m, t);
    }
    SameWeight(counts, vs, rounds, m);
    forall slack | slack > 0.0
      ensures IsReached(counts, vs, slack)
    {
      var limit := TapeMassConverges(counts, vs, slack);
      forall r, k | r >= limit && k >= limit
        ensures Close(TapesWeight(counts, vs, r, k), BatchMass(counts, vs), slack)
      {
        SameWeight(counts, vs, r, k);
      }
      assert Reaches(counts, vs, slack, limit);
    }
  }

  /** All samples succeed and no draw is left over. */
  ghost predicate UsesAll(t: Tape, n: nat) {
    SampleMany(t, n).Some? && SampleMany(t, n).value.1 == |t|
  }

  /** For a batch of queries, those are the tapes on which `ReleaseDpCounts` returns `vs`. */
  lemma BatchOnTape(table: Table, queries: seq<Query>, vs: seq<nat>, t: Tape)
    requires table.Valid() && ColumnsPresent(table, queries)
    ensures FairTape(t) && UsesAll(t, |queries|) && BatchAnswered(table, queries, t, Ok(vs))
       <==> AnswersOn(t, TrueCounts(table, queries), vs)
  {
    hide SampleMany, CountRows;
    AllPresent(table, queries);
  }

  lemma AllPresent(table: Table, queries: seq<Query>)
    requires ColumnsPresent(table, queries)
    ensures FirstMissing(table, queries) == |queries|
  {
    assert forall k :: 0 <= k < |queries| ==> queries[k] in queries;
  }

  /** For a histogram, those are the tapes on which `ReleaseHistogram` writes the file of `vs`. */
  lemma HistogramOnTape(table: Table, dimensions: seq<string>, domains: seq<seq<string>>, vs: seq<nat>, t: Tape)
    requires Releasable(table, dimensions, domains) && |vs| == |Cells(domains)|
    ensures var cells := Cells(domains);
      FairTape(t) && UsesAll(t, |cells|) && HistogramAnswered(table, dimensions, cells, t, Ok(Expand(cells, vs)))
      <==> AnswersOn(t, CellCounts(table.rows, dimensions, cells), vs)
  {
    hide SampleMany, Expand, CellCount, Cells, FairTape;
    var cells := Cells(domains);
    CellsDistinct(domains);
    var s := SampleMany(t, |cells|);
    if s.Some? {
      var noisy := ClampAll(CellCounts(table.rows, dimensions, cells), s.value.0);
      if Expand(cells, noisy) == Expand(cells, vs) {
        ExpandIsInjective(cells, noisy, vs);
      }
    }
  }

  /** Privacy on the tapes themselves: whatever the limits, the tapes on which one table gives the
      answers weigh at most 2^n times those on which its neighbour does. */
  lemma BatchTapesArePrivate(a: Table, b: Table, queries: seq<Query>, vs: seq<nat>, rounds: nat, m: nat)
    requires a.Valid() && b.Valid() && Neighbours(a, b) && ColumnsPresent(a, queries) && |vs| == |queries|
    ensures ColumnsPresent(b, queries)
    ensures Within(TapesWeight(TrueCounts(a, queries), vs, rounds, m), Power2(|queries|),
                   TapesWeight(TrueCounts(b, queries), vs, rounds, m + 1))
  {
    hide CountRows, Neighbours, TapesWeight;
    forall i | 0 <= i < |queries|
      ensures queries[i].column in b.fields
      ensures CountRows(a.rows, queries[i]) <= CountRows(b.rows, queries[i]) + 1
      ensures CountRows(b.rows, queries[i]) <= CountRows(a.rows, queries[i]) + 1
    {
      assert queries[i] in queries;
      CountsDifferByOne(a, b, queries[i]);
    }
    var counts, counts' := TrueCounts(a, queries), TrueCounts(b, queries);
    ChangedAtMost(counts, counts');
    WeightRatio(counts, counts', vs, rounds, m, |queries|);
  }

  lemma WeightRatio(counts: seq<nat>, counts': seq<nat>, vs: seq<nat>, rounds: nat, m: nat, n: nat)
    requires |counts| == |counts'| == |vs| && Changed(counts, counts') <= n
    requires forall i :: 0 <= i < |counts| ==> counts[i] <= counts'[i] + 1 && counts'[i] <= counts[i] + 1
    ensures Within(TapesWeight(counts, vs, rounds, m), Power2(n), TapesWeight(counts', vs, rounds, m + 1))
  {
    hide *;
    TapeRatio(counts, counts', vs, rounds, m);
    TapeRatio(counts', counts', vs, rounds, m + 1);
    PowerGrows(Changed(counts, counts'), n);
    WiderWithin(TapeMass(counts, vs, rounds, m), Power2(Changed(counts, counts')),
                TapeMass(counts', vs, rounds, m + 1), Power2(n));
    SameWeight(counts, vs, rounds, m);
    SameWeight(counts', vs, rounds, m + 1);
  }

  lemma SameWeight(counts: seq<nat>, vs: seq<nat>, rounds: nat, m: nat)
    requires |counts| == |vs|
    ensures TapesWeight(counts, vs, rounds, m) == TapeMass(counts, vs, rounds, m)
  {
    hide TapeMass, BatchTapes;
    BatchTapesWeight(counts, vs, rounds, m);
  }

  lemma WiderWithin(x: real, p: real, y: real, p': real)
    requires Within(x, p, y) && 0.0 < p <= p'
    ensures Within(x, p', y)
  {
    var more := p' - p;
    assert y >= 0.0;
    assert p' * y == p * y + more * y;
  }

  /** And for a histogram at most twice, however many cells it has. */
  lemma HistogramTapesArePrivate(a: Table, b: Table, dimensions: seq<string>, domains: seq<seq<string>>, vs: seq<nat>,
                                 rounds: nat, m: nat)
    requires Neighbours(a, b) && Releasable(a, dimensions, domains) && Releasable(b, dimensions, domains)
    requires |vs| == |Cells(domains)|
    ensures TapesWeight(CellCounts(a.rows, dimensions, Cells(domains)), vs, rounds, m)
         <= 2.0 * TapesWeight(CellCounts(b.rows, dimensions, Cells(domains)), vs, rounds, m + 1)
  {
    hide TapesWeight, CellCount, Cells;
    var k := OneCellChanges(a, b, dimensions, domains);
    var counts, counts' := CellCounts(a.rows, dimensions, Cells(domains)), CellCounts(b.rows, dimensions, Cells(domains));
    ChangedAtOne(counts, counts', k);
    WeightRatio(counts, counts', vs, rounds, m, 1);
    assert Power2(1) == 2.0;
  }
}
