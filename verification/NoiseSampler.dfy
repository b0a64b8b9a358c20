/** The exact two-sided geometric sampler, as a program over fair draws. */
module NoiseSampler {
  import opened Results

  /** One answer of the random source: a value below the bound it was asked for. */
  datatype Draw = Draw(bound: nat, value: nat)

  ghost predicate FairTape(tape: seq<Draw>) {
    forall d :: d in tape ==> d.value < d.bound
  }

  /** The probability that a fair source gives exactly these answers to these requests. */
  ghost function Weight(tape: seq<Draw>): real
    requires FairTape(tape)
  {
    if tape == [] then 1.0 else Weight(tape[1..]) / (tape[0].bound as real)
  }

  /** A run that has finished: the noise and how many draws it used; `None` when the tape is
      too short or answers another request. */
  type Outcome = Option<(int, nat)>

  function Sample(tape: seq<Draw>): Outcome
    decreases |tape|, 1
  {
    if tape == [] || tape[0].bound != 4 then None else Used(AfterBranch(tape[0].value, tape[1..]), 1)
  }

  function AfterBranch(branch: nat, tape: seq<Draw>): Outcome
    decreases |tape|, 2
  {
    if branch == 3 then Sample(tape)
    else if branch == 0 then Some((0, 0))
    else
      match Magnitude(tape, 1)
      case None => None
      case Some((m, used)) => Some((if branch == 1 then m else -m, used))
  }

  function Magnitude(tape: seq<Draw>, m: nat): Outcome
    decreases |tape|, 1
  {
    if tape == [] || tape[0].bound != 2 then None else Used(AfterBit(tape[0].value, tape[1..], m), 1)
  }

  function AfterBit(bit: nat, tape: seq<Draw>, m: nat): Outcome
    decreases |tape|, 2
  {
    if bit == 0 then Magnitude(tape, m + 1) else Some((m, 0))
  }

  function Used(o: Outcome, n: nat): Outcome {
    match o case None => None case Some((z, used)) => Some((z, used + n))
  }

  /** The source of randomness: a tape read from left to right. */
  class Source {
    const tape: seq<Draw>
    var used: nat

    constructor (tape: seq<Draw>)
      ensures this.tape == tape && used == 0
    {
      this.tape := tape;
      used := 0;
    }

    ghost predicate Valid()
      reads this
    {
      used <= |tape|
    }

    method RandBelow(bound: nat) returns (r: Option<nat>)
      requires Valid()
      modifies this
      ensures Valid()
      ensures r.None? <==> old(used) == |tape| || tape[old(used)].bound != bound
      ensures r.None? ==> used == old(used)
      ensures r.Some? ==> used == old(used) + 1 && r.value == tape[old(used)].value
    {
      if used == |tape| || tape[used].bound != bound {
        return None;
      }
      used := used + 1;
      return Some(tape[used - 1].value);
    }
  }

  lemma SampleStep(tape: seq<Draw>, at: nat)
    requires at <= |tape|
    ensures Sample(tape[at..]) ==
      if at == |tape| || tape[at].bound != 4 then None else Used(AfterBranch(tape[at].value, tape[at + 1..]), 1)
  {
    if at < |tape| {
      assert tape[at..][1..] == tape[at + 1..];
    }
  }

  method SampleTwoSidedGeometric(source: Source) returns (noise: Option<int>)
    requires source.Valid()
    modifies source
    ensures source.Valid()
    ensures match Sample(source.tape[old(source.used)..])
      case None => noise == None
      case Some((z, n)) => noise == Some(z) && source.used == old(source.used) + n
  {
    ghost var start, tape := source.used, source.tape;
    SampleStep(tape, start);
    var branch := source.RandBelow(4);
    hide Sample, Magnitude;
    while branch == Some(3)
      invariant source.Valid() && start <= source.used
      invariant Sample(tape[start..]) ==
        if branch.None? then None else Used(AfterBranch(branch.value, tape[source.used..]), source.used - start)
      decreases |tape| - source.used, branch.Some?
    {
      SampleStep(tape, source.used);
      branch := source.RandBelow(4);
    }
    if branch.None? {
      return None;
    }
    if branch == Some(0) {
      return Some(0);
    }
    var magnitude := CountZeros(source);
    return match magnitude case None => None case Some(m) => Some(if branch == Some(1) then m else -m);
  }

  /** One more than the number of zero bits before the first non-zero one. */
  method CountZeros(source: Source) returns (magnitude: Option<int>)
    requires source.Valid()
    modifies source
    ensures source.Valid()
    ensures match Magnitude(source.tape[old(source.used)..], 1)
      case None => magnitude == None
      case Some((m, n)) => magnitude == Some(m) && source.used == old(source.used) + n
  {
    ghost var start, tape := source.used, source.tape;
    var m: nat := 1;
    var bit := source.RandBelow(2);
    assert bit.Some? ==> tape[start..][1..] == tape[source.used..];
    while bit == Some(0)
      invariant source.Valid() && start <= source.used
      invariant Magnitude(tape[start..], 1) ==
        if bit.None? then None else Used(AfterBit(bit.value, tape[source.used..], m), source.used - start)
      decreases |tape| - source.used, bit.Some?
    {
      m := m + 1;
      ghost var at := source.used;
      bit := source.RandBelow(2);
      assert bit.Some? ==> tape[at..][1..] == tape[source.used..];
    }
    return if bit.None? then None else Some(m);
  }
}
