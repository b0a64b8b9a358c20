/** The persistent privacy budget: spend is recorded, under an exclusive lock, before anything
    can be released. */
module BudgetLedger {
  import opened Results
  import opened DpRelease
  import opened DpTapes
  import opened Releases

  /** The ledger file. `Overhang` is a record written over a longer one and not yet cut to
      length: trailing text makes it unreadable. */
  datatype Content =
    | Blank
    | Record(budget: string, maximum: real, spent: real)
    | Overhang(budget: string, maximum: real, spent: real)
  {
    function Spent(): real {
      if Blank? then 0.0 else spent
    }
  }

  datatype LedgerError = InvalidCall | Unreadable | Mismatch | Exceeded

  /** One persistent release: a batch of counts or a histogram, paid from a named budget. */
  datatype Call = Call(budget: string, maximum: real, request: Request) {
    ghost predicate Ok() {
      budget != "" && EpsilonOk(maximum) && request.Paid()
    }
  }

  /** What a caller reads off the ledger: the cumulative spend to record, or a refusal. */
  function Decide(disk: Content, call: Call): Result<real, LedgerError> {
    if disk.Overhang? then Err(Unreadable)
    else if disk.Record? && (disk.budget != call.budget || disk.maximum != call.maximum) then Err(Mismatch)
    else if disk.Spent() + call.request.Cost() > call.maximum then Err(Exceeded)
    else Ok(disk.Spent() + call.request.Cost())
  }

  // ---------- One undisturbed call ----------

  class Ledger {
    var content: Content
    ghost var released: seq<Request>

    /** Everything released so far is paid for. */
    ghost predicate Valid()
      reads this
    {
      && TotalCost(released) <= content.Spent()
      && (content.Blank? || content.spent <= content.maximum)
    }

    constructor ()
      ensures Valid() && content == Blank && released == []
    {
      content, released := Blank, [];
    }

    method Spend(call: Call) returns (r: Result<real, LedgerError>)
      requires Valid()
      modifies this
      ensures Valid()
      ensures !call.Ok() ==> r == Err(InvalidCall)
      ensures call.Ok() ==> r == Decide(old(content), call)
      ensures r.Err? ==> content == old(content) && released == old(released)
      ensures r.Ok? ==> content == Record(call.budget, call.maximum, r.value) && released == old(released) + [call.request]
      ensures old(content.Spent()) <= content.Spent()
      ensures r.Ok? ==> old(content) == Blank || old(content.Record? && IsFor(content, call))
      ensures r.Ok? ==> old(content.Spent()) + call.request.Cost() == r.value <= call.maximum
      ensures r == Err(InvalidCall) <==> call.budget == "" || !(0.7 <= call.maximum <= 100.0) || !call.request.Paid()
      ensures r == Err(Mismatch) ==> old(content.Record?) && (old(content.budget) != call.budget || old(content.maximum) != call.maximum)
      ensures r == Err(Exceeded) ==> old(content.Spent()) + call.request.Cost() > call.maximum
    {
      var valid := CheckRequest(call.request);
      if call.budget == "" || !EpsilonOk(call.maximum) || !valid {
        return Err(InvalidCall);
      }
      if content.Overhang? {
        return Err(Unreadable);
      }
      var spent := 0.0;
      if content.Record? {
        if content.budget != call.budget || content.maximum != call.maximum {
          return Err(Mismatch);
        }
        spent := content.spent;
      }
      if spent + call.request.Cost() > call.maximum {
        return Err(Exceeded);
      }
      var cumulative := spent + call.request.Cost();
      RequestIsPaid(call.request);
      content := Record(call.budget, call.maximum, cumulative);
      OneMoreRequest(released, call.request);
      released := released + [call.request];
      r := Ok(cumulative);
    }
  }

  /** Every requested epsilon is checked before the ledger is opened. */
  method CheckRequest(request: Request) returns (valid: bool)
    ensures valid <==> request.Paid()
  {
    match request {
      case Batch(queries) =>
        valid := queries != [];
        for i := 0 to |queries|
          invariant valid <==> queries != [] && AllEpsilonOk(queries[..i])
        {
          valid := valid && EpsilonOk(queries[i].epsilon);
        }
        assert queries[..|queries|] == queries;
      case Histogram(_, _, epsilon) =>
        valid := EpsilonOk(epsilon);
    }
  }

  lemma OneMoreRequest(rs: seq<Request>, r: Request)
    ensures TotalCost(rs + [r]) == TotalCost(rs) + r.Cost()
    ensures AllPaid(rs) && r.Paid() ==> AllPaid(rs + [r])
  {
    assert (rs + [r])[..|rs|] == rs;
  }

  // ---------- Many calls, interleaved and crashing ----------

  /** Where a call stands. From `Holding` to `Produced` it owns the lock. */
  datatype Phase = Waiting | Holding | Reserved(cumulative: real) | Flushed(cumulative: real)
                 | Durable(cumulative: real) | Produced | Ended

  datatype Proc = Proc(call: Call, phase: Phase)

  datatype System = System(disk: Content, procs: seq<Proc>, lock: Option<nat>, released: seq<Request>)

  predicate InsideLock(p: Phase) {
    !p.Waiting? && !p.Ended?
  }

  ghost predicate Init(s: System) {
    && s.disk == Blank && s.lock == None && s.released == []
    && forall i :: 0 <= i < |s.procs| ==> s.procs[i].phase == Waiting
  }

  function Move(s: System, i: nat, phase: Phase): System
    requires i < |s.procs|
  {
    s.(procs := s.procs[i := s.procs[i].(phase := phase)])
  }

  /** One step of call `i`; the steps follow the code line by line. */
  ghost predicate Step(s: System, s': System, i: nat)
    requires i < |s.procs|
  {
    var call := s.procs[i].call;
    match s.procs[i].phase
    case Waiting =>
      if call.Ok() then s.lock == None && s' == Move(s, i, Holding).(lock := Some(i)) else s' == Move(s, i, Ended)
    case Holding =>
      (match Decide(s.disk, call)
       case Ok(cumulative) => s' == Move(s, i, Reserved(cumulative))
       case Err(_) => s' == Move(s, i, Ended).(lock := None))
    case Reserved(c) =>
      || s' == Move(s, i, Flushed(c)).(disk := Record(call.budget, call.maximum, c))
      || s' == Move(s, i, Flushed(c)).(disk := Overhang(call.budget, call.maximum, c))
    case Flushed(c) => s' == Move(s, i, Durable(c)).(disk := Record(call.budget, call.maximum, c))
    case Durable(_) =>
      || s' == Move(s, i, Produced).(released := s.released + [call.request])
      || s' == Move(s, i, Ended).(lock := None)
    case Produced => s' == Move(s, i, Ended).(lock := None)
    case Ended => false
  }

  /** The process of call `i` dies: its lock is released, the file stays as it is. */
  ghost predicate Crash(s: System, s': System, i: nat)
    requires i < |s.procs|
  {
    s.procs[i].phase != Ended && s' == Move(s, i, Ended).(lock := if s.lock == Some(i) then None else s.lock)
  }

  ghost predicate Next(s: System, s': System) {
    exists i: nat :: i < |s.procs| && (Step(s, s', i) || Crash(s, s', i))
  }

  ghost predicate Run(states: seq<System>) {
    && states != [] && Init(states[0])
    && forall i :: 0 <= i < |states| - 1 ==> Next(states[i], states[i + 1])
  }

  /** The file names the budget of the call, with the call's maximum. */
  ghost predicate IsFor(disk: Content, call: Call) {
    !disk.Blank? && disk.budget == call.budget && disk.maximum == call.maximum
  }

  /** The file keeps its budget and its maximum once it has them. */
  ghost predicate SameBudget(disk: Content, disk': Content) {
    !disk.Blank? ==> !disk'.Blank? && disk'.budget == disk.budget && disk'.maximum == disk.maximum
  }

  ghost predicate PhaseOk(s: System, p: Proc)
  {
    match p.phase
    case Reserved(c) => Decide(s.disk, p.call) == Ok(c)
    case Flushed(c) => s.disk.Spent() == c && IsFor(s.disk, p.call)
                       && TotalCost(s.released) + p.call.request.Cost() <= c <= p.call.maximum
    case Durable(c) => s.disk == Record(p.call.budget, p.call.maximum, c)
                       && TotalCost(s.released) + p.call.request.Cost() <= c <= p.call.maximum
    case _ => true
  }

  ghost predicate SpendCovers(s: System) {
    && TotalCost(s.released) <= s.disk.Spent()
    && (s.disk.Blank? || s.disk.spent <= s.disk.maximum)
    && AllPaid(s.released)
  }

  ghost predicate LockHeld(s: System) {
    forall i :: 0 <= i < |s.procs| ==> (InsideLock(s.procs[i].phase) <==> s.lock == Some(i))
  }

  ghost predicate PhasesOk(s: System) {
    forall i :: 0 <= i < |s.procs| && InsideLock(s.procs[i].phase) ==> s.procs[i].call.Ok() && PhaseOk(s, s.procs[i])
  }

  ghost predicate Inv(s: System) {
    SpendCovers(s) && LockHeld(s) && PhasesOk(s)
  }

  /** What is about to be recorded covers the past and the call, within the maximum. */
  lemma ReservedCovers(s: System, call: Call, c: real)
    requires SpendCovers(s) && call.Ok() && Decide(s.disk, call) == Ok(c)
    ensures TotalCost(s.released) + call.request.Cost() <= c <= call.maximum && s.disk.Spent() <= c
    ensures 0.0 <= call.request.Cost() && (!s.disk.Blank? ==> IsFor(s.disk, call))
  {
    RequestIsPaid(call.request);
    hide TotalCost;
  }

  /** The step keeps the ledger's promise. */
  lemma StepKeepsSpend(s: System, s': System, i: nat)
    requires SpendCovers(s) && i < |s.procs| && Step(s, s', i)
    requires InsideLock(s.procs[i].phase) ==> s.procs[i].call.Ok() && PhaseOk(s, s.procs[i])
    ensures SpendCovers(s') && s.disk.Spent() <= s'.disk.Spent()
    ensures SameBudget(s.disk, s'.disk)
  {
    var p := s.procs[i];
    if p.phase.Reserved? {
      ReservedCovers(s, p.call, p.phase.cumulative);
    } else if p.phase.Durable? {
      OneMoreRequest(s.released, p.call.request);
    } else if !p.phase.Flushed? {
      Unspent(s, s', i);
      return;
    }
    hide TotalCost, Decide, AllPaid, Request.Cost, Request.Paid;
  }

  /** The other steps touch neither the file nor what is released. */
  lemma Unspent(s: System, s': System, i: nat)
    requires i < |s.procs| && Step(s, s', i)
    requires var phase := s.procs[i].phase; !phase.Reserved? && !phase.Flushed? && !phase.Durable?
    ensures s'.disk == s.disk && s'.released == s.released
  {
    hide Decide, Call.Ok;
  }

  /** What the moving call knows stays true. */
  lemma StepKeepsPhase(s: System, s': System, i: nat)
    requires SpendCovers(s) && i < |s.procs| && Step(s, s', i)
    requires InsideLock(s.procs[i].phase) ==> s.procs[i].call.Ok() && PhaseOk(s, s.procs[i])
    ensures i < |s'.procs| && (InsideLock(s'.procs[i].phase) ==> s'.procs[i].call.Ok() && PhaseOk(s', s'.procs[i]))
  {
    if s.procs[i].phase.Reserved? {
      ReservedCovers(s, s.procs[i].call, s.procs[i].phase.cumulative);
    }
    hide TotalCost;
  }

  lemma StepKeepsInv(s: System, s': System, i: nat)
    requires Inv(s) && i < |s.procs| && Step(s, s', i)
    ensures Inv(s') && s.disk.Spent() <= s'.disk.Spent()
    ensures SameBudget(s.disk, s'.disk)
  {
    StepKeepsSpend(s, s', i);
    StepKeepsPhase(s, s', i);
    hide Decide, SpendCovers;
    if !s.procs[i].phase.Waiting? {
      OthersOutside(s, i);
    }
  }

  /** While call `i` holds the lock, no other call is inside. */
  lemma OthersOutside(s: System, i: nat)
    requires LockHeld(s) && i < |s.procs| && s.lock == Some(i)
    ensures forall k :: 0 <= k < |s.procs| && k != i ==> !InsideLock(s.procs[k].phase)
  {
  }

  lemma CrashKeepsInv(s: System, s': System, i: nat)
    requires Inv(s) && i < |s.procs| && Crash(s, s', i)
    ensures Inv(s') && s.disk == s'.disk
  {
  }

  lemma {:induction false} RunKeepsInv(states: seq<System>, k: nat)
    requires Run(states) && k < |states|
    ensures Inv(states[k])
  {
    if k > 0 {
      RunKeepsInv(states, k - 1);
      NextKeepsInv(states[k - 1], states[k]);
    }
  }

  lemma NextKeepsInv(s: System, s': System)
    requires Inv(s) && Next(s, s')
    ensures Inv(s') && s.disk.Spent() <= s'.disk.Spent()
    ensures SameBudget(s.disk, s'.disk)
  {
    var i: nat :| i < |s.procs| && (Step(s, s', i) || Crash(s, s', i));
    if Step(s, s', i) {
      StepKeepsInv(s, s', i);
    } else {
      CrashKeepsInv(s, s', i);
    }
  }

  /** In every interleaving, with crashes anywhere: recorded spend never decreases. */
  lemma {:induction false} SpendNeverDecreases(states: seq<System>, j: nat, k: nat)
    requires Run(states) && j <= k < |states|
    ensures states[j].disk.Spent() <= states[k].disk.Spent()
    ensures SameBudget(states[j].disk, states[k].disk)
    decreases k
  {
    hide Inv, Next, Init;
    if j < k {
      SpendNeverDecreases(states, j, k - 1);
      RunKeepsInv(states, k - 1);
      NextKeepsInv(states[k - 1], states[k]);
    }
  }

  /** Some call for the ledger's own budget asked for `r`. */
  ghost predicate AskedFor(s: System, r: Request) {
    exists i :: 0 <= i < |s.procs| && s.procs[i].call.request == r && s.procs[i].call.Ok() && IsFor(s.disk, s.procs[i].call)
  }

  lemma StepKeepsAsked(s: System, s': System, i: nat, r: Request)
    requires i < |s.procs| && Step(s, s', i) && SameBudget(s.disk, s'.disk) && r in s'.released
    requires InsideLock(s.procs[i].phase) ==> s.procs[i].call.Ok() && PhaseOk(s, s.procs[i])
    requires r in s.released ==> AskedFor(s, r)
    ensures AskedFor(s', r)
  {
    hide Decide, TotalCost, Call.Ok;
    var calls := seq(|s.procs|, k requires 0 <= k < |s.procs| => s.procs[k].call);
    assert |s'.procs| == |s.procs| && forall k :: 0 <= k < |s.procs| ==> s'.procs[k].call == calls[k] == s.procs[k].call;
    if r !in s.released {
      assert s'.procs[i].call.request == r;
    }
  }

  /** Everything released was asked for by a call for the budget that the ledger names. */
  lemma {:induction false} ReleasesAreAskedFor(states: seq<System>, k: nat, r: Request)
    requires Run(states) && k < |states| && r in states[k].released
    ensures AskedFor(states[k], r)
    decreases k
  {
    hide Inv, Init, AskedFor, Step, Crash;
    if k == 0 {
      InitReleasesNothing(states[0]);
    } else {
      var s, s' := states[k - 1], states[k];
      RunKeepsInv(states, k - 1);
      NextKeepsInv(s, s');
      if r in s.released {
        ReleasesAreAskedFor(states, k - 1, r);
      }
      var i: nat :| i < |s.procs| && (Step(s, s', i) || Crash(s, s', i));
      if Step(s, s', i) {
        MovingIsOk(s, i);
        StepKeepsAsked(s, s', i, r);
      } else {
        CrashKeepsAsked(s, s', i, r);
      }
    }
  }

  lemma InitReleasesNothing(s: System)
    requires Init(s)
    ensures s.released == []
  {
  }

  lemma MovingIsOk(s: System, i: nat)
    requires Inv(s) && i < |s.procs|
    ensures InsideLock(s.procs[i].phase) ==> s.procs[i].call.Ok() && PhaseOk(s, s.procs[i])
  {
  }

  lemma CrashKeepsAsked(s: System, s': System, i: nat, r: Request)
    requires i < |s.procs| && Crash(s, s', i) && r in s'.released && (r in s.released ==> AskedFor(s, r))
    ensures AskedFor(s', r)
  {
    var k :| 0 <= k < |s.procs| && s.procs[k].call.request == r && s.procs[k].call.Ok() && IsFor(s.disk, s.procs[k].call);
    assert s'.procs[k].call == s.procs[k].call;
  }

  /** ... it covers everything ever released, and never exceeds the recorded maximum. */
  lemma SpendCoversReleases(states: seq<System>, k: nat)
    requires Run(states) && k < |states|
    ensures var s := states[k];
      && TotalCost(s.released) <= s.disk.Spent()
      && (!s.disk.Blank? ==> s.disk.Spent() <= s.disk.maximum)
      && (s.released != [] ==> !s.disk.Blank?)
  {
    RunKeepsInv(states, k);
    var s := states[k];
    ReleasesArePaid(s);
  }

  /** Left alone, the steps of a call do what `Ledger.Spend` does, and free the lock. */
  lemma UndisturbedCall(s: System, i: nat) returns (states: seq<System>)
    requires i < |s.procs| && s.procs[i].phase == Waiting && s.procs[i].call.Ok() && s.lock == None
    ensures states != [] && states[0] == s
    ensures forall k :: 0 <= k < |states| - 1 ==> i < |states[k].procs| && Step(states[k], states[k + 1], i)
    ensures var call, last := s.procs[i].call, states[|states| - 1];
      last.lock == None
      && match Decide(s.disk, call)
         case Err(_) => last.disk == s.disk && last.released == s.released
         case Ok(c) => last.disk == Record(call.budget, call.maximum, c) && last.released == s.released + [call.request]
  {
    var call := s.procs[i].call;
    var s1 := Move(s, i, Holding).(lock := Some(i));
    match Decide(s.disk, call) {
      case Err(_) =>
        states := [s, s1, Move(s1, i, Ended).(lock := None)];
      case Ok(c) =>
        var s2 := Move(s1, i, Reserved(c));
        var s3 := Move(s2, i, Flushed(c)).(disk := Record(call.budget, call.maximum, c));
        var s4 := Move(s3, i, Durable(c));
        var s5 := Move(s4, i, Produced).(released := s.released + [call.request]);
        states := [s, s1, s2, s3, s4, s5, Move(s5, i, Ended).(lock := None)];
    }
  }

  /** Everything released was paid for: one 7/10 for each query and each histogram. */
  lemma ReleasesArePaid(s: System)
    requires SpendCovers(s)
    ensures s.released != [] ==> !s.disk.Blank? && (TotalDoublings(s.released) as real) * MIN_EPSILON <= s.disk.maximum
  {
    if s.released != [] {
      DoublingsArePaid(s.released);
      SomethingDoubles(s.released);
    }
  }

  lemma SomethingDoubles(rs: seq<Request>)
    requires AllPaid(rs) && rs != []
    ensures 1 <= TotalDoublings(rs)
  {
    assert rs[|rs| - 1] in rs;
    RequestIsPaid(rs[|rs| - 1]);
  }

  /** The end-to-end guarantee: over any run, all batches and histograms ever released, taken
      together, change in likelihood by a factor of 2^d at most when one record is added or removed.
      Here d counts every query and every histogram once, and is bounded by the maximum: 7/10 is
      paid for each. This holds of the joint probability and, whatever the limits, of the tapes it
      is the limit of, which are those on which the releases, one after the other, come out so. */
  lemma EverythingReleasedIsPrivate(states: seq<System>, k: nat, a: Table, b: Table, answers: seq<seq<nat>>)
    requires Run(states) && k < |states| && Neighbours(a, b)
    requires AllAnswerable(a, states[k].released) && AllAnswerable(b, states[k].released)
    requires Fits(a, states[k].released, answers)
    ensures var rs, vs := states[k].released, Flatten(answers);
      && |AllCounts(a, rs)| == |AllCounts(b, rs)| == |vs|
      && Within(BatchMass(AllCounts(a, rs), vs), Power2(TotalDoublings(rs)), BatchMass(AllCounts(b, rs), vs))
      && (forall rounds: nat, m: nat ::
            Within(TapesWeight(AllCounts(a, rs), vs, rounds, m), Power2(TotalDoublings(rs)),
                   TapesWeight(AllCounts(b, rs), vs, rounds, m + 1)))
      && (forall t :: OneByOne(t, a, rs, answers) <==> AnswersOn(t, AllCounts(a, rs), vs))
    ensures states[k].released != [] ==>
      !states[k].disk.Blank? && (TotalDoublings(states[k].released) as real) * MIN_EPSILON <= states[k].disk.maximum
  {
    RunKeepsInv(states, k);
    ReleasesArePaid(states[k]);
    hide *;
    var rs, vs := states[k].released, Flatten(answers);
    ReleasesOnTape(a, rs, answers, []);
    ReleasesArePrivate(a, b, rs, vs);
    forall t ensures OneByOne(t, a, rs, answers) <==> AnswersOn(t, AllCounts(a, rs), vs) {
      ReleasesOnTape(a, rs, answers, t);
    }
  }
}
