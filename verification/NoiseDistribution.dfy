/** The distribution the sampler draws from: exact masses, and the ratio between neighbours. */
module NoiseDistribution {
  import opened Results
  import opened NoiseSampler

  function Half(n: nat): (r: real)
    ensures 0.0 < r <= 1.0
  {
    if n == 0 then 1.0 else Half(n - 1) / 2.0
  }

  function Quarter(n: nat): (r: real)
    ensures 0.0 < r <= 1.0
  {
    if n == 0 then 1.0 else Quarter(n - 1) / 4.0
  }

  function Abs(z: int): nat {
    if z < 0 then -z else z
  }

  /** P(0) = 1/3 and P(+m) = P(-m) = 1/(3 * 2^m). */
  function Probability(z: int): (p: real)
    ensures 0.0 < p
  {
    Half(Abs(z)) / 3.0
  }

  // ---------- Which tapes yield which noise ----------

  function BitTape(m: nat): seq<Draw>
    requires m > 0
  {
    if m == 1 then [Draw(2, 1)] else [Draw(2, 0)] + BitTape(m - 1)
  }

  /** The tape with `rejected` redrawn branches that yields `z`. */
  function TapeOf(z: int, rejected: nat): seq<Draw> {
    if rejected > 0 then [Draw(4, 3)] + TapeOf(z, rejected - 1)
    else if z == 0 then [Draw(4, 0)]
    else [Draw(4, if z > 0 then 1 else 2)] + BitTape(Abs(z))
  }

  lemma {:induction false} BitTapeMagnitude(k: nat, m: nat, tail: seq<Draw>)
    requires k > 0
    ensures Magnitude(BitTape(k) + tail, m) == Some((m + k - 1, k)) && |BitTape(k)| == k
  {
    var t := BitTape(k) + tail;
    if k == 1 {
      assert t[1..] == tail;
    } else {
      assert t[1..] == BitTape(k - 1) + tail;
      BitTapeMagnitude(k - 1, m + 1, tail);
    }
  }

  /** The tape yields its noise, uses exactly its own draws, and ignores what follows. */
  lemma {:induction false} SampleOfTape(z: int, rejected: nat, tail: seq<Draw>)
    ensures Sample(TapeOf(z, rejected) + tail) == Some((z, |TapeOf(z, rejected)|))
  {
    var t := TapeOf(z, rejected) + tail;
    if rejected > 0 {
      assert t[1..] == TapeOf(z, rejected - 1) + tail;
      SampleOfTape(z, rejected - 1, tail);
    } else if z == 0 {
      assert t[1..] == tail;
    } else {
      assert t[1..] == BitTape(Abs(z)) + tail;
      BitTapeMagnitude(Abs(z), 1, tail);
    }
  }

  lemma {:induction false} MagnitudeTape(tape: seq<Draw>, m: nat) returns (k: nat)
    requires FairTape(tape) && Magnitude(tape, m).Some?
    ensures 0 < k <= |tape| && Magnitude(tape, m) == Some((m + k - 1, k)) && tape[..k] == BitTape(k)
    decreases |tape|
  {
    assert tape[0] in tape;
    if tape[0].value == 0 {
      var k' := MagnitudeTape(tape[1..], m + 1);
      k := k' + 1;
      assert tape[..k] == [tape[0]] + tape[1..][..k'];
    } else {
      k := 1;
      assert tape[..1] == [tape[0]];
    }
  }

  /** Conversely, what a sample reads off a fair tape is one of these tapes. */
  lemma {:induction false} TapeIsTapeOf(tape: seq<Draw>, z: int, used: nat) returns (rejected: nat)
    requires FairTape(tape) && Sample(tape) == Some((z, used))
    ensures used <= |tape| && tape[..used] == TapeOf(z, rejected)
    decreases |tape|
  {
    assert tape[0] in tape;
    if tape[0].value == 3 {
      var r := TapeIsTapeOf(tape[1..], z, used - 1);
      rejected := r + 1;
      assert tape[..used] == [tape[0]] + tape[1..][..used - 1];
    } else {
      rejected := 0;
      if tape[0].value == 0 {
        assert tape[..1] == [tape[0]];
      } else {
        var k := MagnitudeTape(tape[1..], 1);
        assert tape[..used] == [tape[0]] + tape[1..][..k];
      }
    }
  }

  lemma TapesDiffer(z: int, r: nat, s: nat)
    requires TapeOf(z, r) == TapeOf(z, s)
    ensures r == s
  {
    TapeLength(z, r);
    TapeLength(z, s);
  }

  lemma TapeLength(z: int, r: nat)
    ensures |TapeOf(z, r)| == r + 1 + Abs(z)
    ensures FairTape(TapeOf(z, r))
  {
    if r == 0 && z != 0 {
      BitTapeMagnitude(Abs(z), 1, []);
      BitTapeFair(Abs(z));
    }
  }

  lemma BitTapeFair(m: nat)
    requires m > 0
    ensures FairTape(BitTape(m))
  {
  }

  // ---------- Their mass ----------

  lemma EmptyWeight()
    ensures Weight([]) == 1.0
  {
  }

  lemma WeightStep(t: seq<Draw>)
    requires FairTape(t) && t != []
    ensures t[0].bound > 0 && FairTape(t[1..]) && Weight(t) == Weight(t[1..]) / (t[0].bound as real)
  {
    assert t[0] in t;
  }

  lemma {:induction false} BitTapeWeight(m: nat)
    requires m > 0
    ensures FairTape(BitTape(m)) && Weight(BitTape(m)) == Half(m)
  {
    BitTapeFair(m);
    WeightStep(BitTape(m));
    if m > 1 {
      assert BitTape(m)[1..] == BitTape(m - 1);
      BitTapeWeight(m - 1);
    } else {
      assert BitTape(1)[1..] == [];
      EmptyWeight();
      assert Half(0) == 1.0;
    }
    hide Weight;
  }

  lemma {:induction false} TapeWeight(z: int, rejected: nat)
    ensures FairTape(TapeOf(z, rejected))
    ensures Weight(TapeOf(z, rejected)) == 3.0 * Quarter(rejected + 1) * Probability(z)
  {
    TapeLength(z, rejected);
    var t := TapeOf(z, rejected);
    if rejected > 0 {
      TapeWeight(z, rejected - 1);
      assert t[1..] == TapeOf(z, rejected - 1);
    } else if z == 0 {
      assert t[1..] == [];
    } else {
      BitTapeWeight(Abs(z));
      assert t[1..] == BitTape(Abs(z));
    }
  }

  /** Mass of the tapes that yield `z` with fewer than `rounds` rejected branches, that is,
      within `rounds` branch draws. */
  ghost function Mass(z: int, rounds: nat): real {
    if rounds == 0 then 0.0
    else
      TapeLength(z, rounds - 1);
      Mass(z, rounds - 1) + Weight(TapeOf(z, rounds - 1))
  }

  /** Within R branch draws the sampler yields z with mass exactly (1 - 4^-R) * P(z). */
  lemma {:induction false} MassIsExact(z: int, rounds: nat)
    ensures Mass(z, rounds) == (1.0 - Quarter(rounds)) * Probability(z)
  {
    if rounds > 0 {
      MassIsExact(z, rounds - 1);
      TapeWeight(z, rounds - 1);
      var q, p := Quarter(rounds), Probability(z);
      assert Quarter(rounds - 1) == 4.0 * q;
      assert (1.0 - 4.0 * q) * p + 3.0 * q * p == (1.0 - q) * p;
    }
  }

  /** Total probability of the noise values -m..m. */
  function Total(m: nat): real {
    if m == 0 then Probability(0) else Total(m - 1) + Probability(m) + Probability(-(m as int))
  }

  /** The probabilities sum to one: what lies beyond m is 2/3 * 2^-m, which vanishes. */
  lemma TotalIsOne(m: nat)
    ensures Total(m) == 1.0 - 2.0 * Half(m) / 3.0
  {
  }

  lemma HalfVanishes(n: nat)
    ensures Half(n) * (n as real + 1.0) <= 1.0
  {
    if n > 0 {
      HalfVanishes(n - 1);
      assert Half(n) * (n as real + 1.0) == Half(n - 1) * (n as real) / 2.0 + Half(n - 1) / 2.0;
    }
  }

  /** Moving the noise by one changes its probability by a factor of two at most. */
  lemma NeighbourRatio(z: int, z': int)
    requires z - z' <= 1 && z' - z <= 1
    ensures Probability(z) <= 2.0 * Probability(z')
  {
    var a, b := Abs(z), Abs(z');
    if b == a + 1 {
      assert Half(b) == Half(a) / 2.0;
    } else if a == b + 1 {
      assert Half(a) == Half(b) / 2.0;
    }
  }
}
