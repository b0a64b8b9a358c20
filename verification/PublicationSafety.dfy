/** Crash safety of publication: process crashes, sequences of runs, and power loss. */
module PublicationSafety {
  import opened Results
  import opened Publication

  function ApplyAll(dir: Dir, us: seq<Update>): Dir {
    if us == [] then dir else Apply(ApplyAll(dir, us[..|us| - 1]), us[|us| - 1])
  }

  predicate NoFsync(ops: seq<Op>) {
    forall op :: op in ops ==> op.Up?
  }

  predicate EndsSynced(ops: seq<Op>) {
    ops == [] || ops[|ops| - 1] == Fsync
  }

  function UpdatesOf(ops: seq<Op>): (us: seq<Update>)
    requires NoFsync(ops)
    ensures |us| == |ops|
  {
    seq(|ops|, i requires 0 <= i < |ops| => assert ops[i] in ops; ops[i].update)
  }

  /** What power loss can leave behind: the state at the last directory fsync, plus any of the
      later updates, in any order. */
  ghost predicate MaySurvive(dir: Dir, ops: seq<Op>, left: Dir) {
    exists synced, pending, us ::
      && ops == synced + pending && EndsSynced(synced) && NoFsync(pending)
      && multiset(us) <= multiset(UpdatesOf(pending))
      && left == ApplyAll(After(dir, synced), us)
  }

  // ---------- Which updates can do harm ----------

  predicate KeepsPair(u: Update) {
    u.AddEntry? || u.DropEntry? || u.DropReport?
  }

  predicate KeepsUnready(u: Update) {
    !u.SetReport?
  }

  predicate KeepsSealed(u: Update, d: Digest) {
    KeepsPair(u) || u == SetReport(d)
  }

  /** Why every outcome of the pending updates is safe. */
  ghost predicate Harmless(base: Dir, pending: seq<Op>, d: Digest, verified: set<Digest>) {
    && NoFsync(pending)
    && (|| (Safe(base, verified) && forall op :: op in pending ==> KeepsPair(op.update))
        || (base.report == None && forall op :: op in pending ==> KeepsUnready(op.update))
        || (Safe(base, verified) && base.corpus == Whole(d) && d in verified
            && forall op :: op in pending ==> KeepsSealed(op.update, d)))
  }

  lemma {:induction false} PairKept(base: Dir, us: seq<Update>, verified: set<Digest>)
    requires Safe(base, verified) && forall u :: u in us ==> KeepsPair(u)
    ensures Safe(ApplyAll(base, us), verified)
    ensures ApplyAll(base, us).corpus == base.corpus
  {
    if us != [] {
      assert us[|us| - 1] in us;
      PairKept(base, us[..|us| - 1], verified);
    }
  }

  lemma {:induction false} UnreadyKept(base: Dir, us: seq<Update>)
    requires base.report == None && forall u :: u in us ==> KeepsUnready(u)
    ensures ApplyAll(base, us).report == None
  {
    if us != [] {
      assert us[|us| - 1] in us;
      UnreadyKept(base, us[..|us| - 1]);
    }
  }

  lemma {:induction false} SealedKept(base: Dir, us: seq<Update>, d: Digest, verified: set<Digest>)
    requires Safe(base, verified) && base.corpus == Whole(d) && d in verified && forall u :: u in us ==> KeepsSealed(u, d)
    ensures Safe(ApplyAll(base, us), verified) && ApplyAll(base, us).corpus == Whole(d)
  {
    if us != [] {
      assert us[|us| - 1] in us;
      SealedKept(base, us[..|us| - 1], d, verified);
    }
  }

  lemma HarmlessIsSafe(base: Dir, pending: seq<Op>, d: Digest, verified: set<Digest>, us: seq<Update>)
    requires Harmless(base, pending, d, verified) && multiset(us) <= multiset(UpdatesOf(pending))
    ensures Safe(ApplyAll(base, us), verified)
  {
    forall u | u in us ensures exists op :: op in pending && op.update == u {
      assert u in multiset(us);
      assert u in multiset(UpdatesOf(pending));
      var i :| 0 <= i < |pending| && UpdatesOf(pending)[i] == u;
      assert pending[i] in pending;
    }
    if Safe(base, verified) && forall op :: op in pending ==> KeepsPair(op.update) {
      PairKept(base, us, verified);
    } else if base.report == None && forall op :: op in pending ==> KeepsUnready(op.update) {
      UnreadyKept(base, us);
    } else {
      SealedKept(base, us, d, verified);
    }
  }

  // ---------- Cutting a run at its last fsync ----------

  lemma {:induction false} StagingKeeps(dir: Dir, ops: seq<Op>)
    requires IsStaging(ops)
    ensures After(dir, ops).report == dir.report && After(dir, ops).corpus == dir.corpus
  {
    if ops != [] {
      assert ops[|ops| - 1] in ops;
      StagingKeeps(dir, ops[..|ops| - 1]);
    }
  }

  lemma {:induction false} ClearingKeeps(dir: Dir, ops: seq<Op>)
    requires IsClearing(ops)
    ensures After(dir, ops).report == dir.report
  {
    if ops != [] {
      assert ops[|ops| - 1] in ops;
      ClearingKeeps(dir, ops[..|ops| - 1]);
    }
  }

  lemma PrefixOfConcat(a: seq<Op>, b: seq<Op>, n: nat)
    requires n <= |a + b|
    ensures (a + b)[..n] == if n <= |a| then a[..n] else a + b[..n - |a|]
  {
  }

  /** After invalidation the directory is not ready. */
  lemma Invalidated(dir: Dir, stage: seq<Op>)
    requires IsStaging(stage)
    ensures After(dir, stage + Invalidate(dir)).report == None
  {
    StagingKeeps(dir, stage);
    if dir.report.Some? {
      AfterOne(dir, stage, Up(DropReport));
      AfterOne(dir, stage + [Up(DropReport)], Fsync);
      assert stage + [Up(DropReport)] + [Fsync] == stage + Invalidate(dir);
    } else {
      assert stage + [] == stage;
    }
  }

  /** Once the swap is durable the corpus is the sealed one and still not marked ready. */
  lemma Swapped(dir: Dir, stage: seq<Op>, clear: seq<Op>, d: Digest)
    requires IsStaging(stage) && IsClearing(clear)
    ensures var before := stage + Invalidate(dir) + clear;
      && After(dir, before).report == None
      && After(dir, before + [Up(SetCorpus(d)), Fsync]).report == None
      && After(dir, before + [Up(SetCorpus(d)), Fsync]).corpus == Whole(d)
  {
    var before := stage + Invalidate(dir) + clear;
    Invalidated(dir, stage);
    AfterConcat(dir, stage + Invalidate(dir), clear);
    ClearingKeeps(After(dir, stage + Invalidate(dir)), clear);
    AfterOne(dir, before, Up(SetCorpus(d)));
    AfterOne(dir, before + [Up(SetCorpus(d))], Fsync);
    assert before + [Up(SetCorpus(d))] + [Fsync] == before + [Up(SetCorpus(d)), Fsync];
  }

  ghost predicate CutAt(dir: Dir, ops: seq<Op>, synced: seq<Op>, pending: seq<Op>, d: Digest, verified: set<Digest>) {
    && ops == synced + pending && EndsSynced(synced) && Harmless(After(dir, synced), pending, d, verified)
    && (synced == [] ==> forall op :: op in pending ==> KeepsUnready(op.update))
  }

  /** Stopped before any clearing. */
  lemma CutStart(dir: Dir, stage: seq<Op>, n: nat, cleanup: seq<Op>, d: Digest, verified: set<Digest>)
    returns (synced: seq<Op>, pending: seq<Op>)
    requires IsStaging(stage) && IsStaging(cleanup) && n <= |stage + Invalidate(dir)| && Safe(dir, verified)
    ensures CutAt(dir, (stage + Invalidate(dir))[..n] + cleanup, synced, pending, d, verified)
  {
    hide After, Safe;
    PrefixOfConcat(stage, Invalidate(dir), n);
    var ops := (stage + Invalidate(dir))[..n] + cleanup;
    if n <= |stage| {
      synced, pending := [], stage[..n] + cleanup;
      assert [] + pending == pending;
      NothingDone(dir);
    } else if n == |stage| + 1 {
      synced, pending := [], stage + [Up(DropReport)] + cleanup;
      assert ops == [] + pending;
      NothingDone(dir);
    } else {
      synced, pending := stage + Invalidate(dir), cleanup;
      Invalidated(dir, stage);
    }
  }

  lemma CutRejected(dir: Dir, ops: seq<Op>, d: Digest, verified: set<Digest>) returns (synced: seq<Op>, pending: seq<Op>)
    requires IsRejectedRun(ops) && Safe(dir, verified)
    ensures CutAt(dir, ops, synced, pending, d, verified)
  {
    hide After, Safe, Harmless, CutAt, Invalidate;
    assert (ops + Invalidate(dir))[..|ops|] + [] == ops;
    NothingStaged();
    synced, pending := CutStart(dir, ops, |ops|, [], d, verified);
  }

  lemma NothingDone(dir: Dir)
    ensures After(dir, []) == dir
  {
  }

  lemma MoreVerified(base: Dir, pending: seq<Op>, d: Digest, verified: set<Digest>, more: set<Digest>)
    requires Harmless(base, pending, d, verified) && verified <= more
    ensures Harmless(base, pending, d, more)
  {
  }

  lemma CutRun(dir: Dir, d: Digest, ops: seq<Op>, verified: set<Digest>) returns (synced: seq<Op>, pending: seq<Op>)
    requires IsRun(dir, d, ops) && Safe(dir, verified)
    ensures CutAt(dir, ops, synced, pending, d, verified + {d})
  {
    hide After, Invalidate, Promote, CutAt, Safe;
    var e, stage, clear, last, n: nat, cleanup :| StopsAfter(dir, d, ops, e, stage, clear, last, n, cleanup);
    StoppedShape(dir, d, stage, clear, last, n);
    synced, pending := CutFull(dir, d, stage, clear, last, |stage| + n, cleanup, verified);
  }

  lemma StoppedShape(dir: Dir, d: Digest, stage: seq<Op>, clear: seq<Op>, last: seq<Op>, n: nat)
    requires n <= |Publishing(dir, d, clear, last)|
    ensures |stage| + n <= |(stage + Invalidate(dir)) + (clear + (Promote(d) + last))|
    ensures stage + Publishing(dir, d, clear, last)[..n]
            == ((stage + Invalidate(dir)) + (clear + (Promote(d) + last)))[..|stage| + n]
  {
    hide Invalidate, Promote;
    assert stage + Publishing(dir, d, clear, last) == (stage + Invalidate(dir)) + (clear + (Promote(d) + last));
    PrefixOfConcat(stage, Publishing(dir, d, clear, last), |stage| + n);
  }

  lemma CutFull(dir: Dir, d: Digest, stage: seq<Op>, clear: seq<Op>, last: seq<Op>, n: nat, cleanup: seq<Op>,
          verified: set<Digest>)
    returns (synced: seq<Op>, pending: seq<Op>)
    requires IsStaging(stage) && IsClearing(clear) && IsStaging(last) && IsStaging(cleanup) && Safe(dir, verified)
    requires n <= |(stage + Invalidate(dir)) + (clear + (Promote(d) + last))|
    ensures CutAt(dir, ((stage + Invalidate(dir)) + (clear + (Promote(d) + last)))[..n] + cleanup,
                  synced, pending, d, verified + {d})
  {
    hide After, Invalidate, Promote, Harmless, Safe;
    var a, b := stage + Invalidate(dir), Promote(d) + last;
    PrefixOfConcat(a, clear + b, n);
    if n <= |a| {
      synced, pending := CutStart(dir, stage, n, cleanup, d, verified);
      MoreVerified(After(dir, synced), pending, d, verified, verified + {d});
    } else {
      PrefixOfConcat(clear, b, n - |a|);
      if n - |a| <= |clear| {
        synced, pending := CutClearing(dir, d, stage, clear[..n - |a|], cleanup, verified);
      } else {
        synced, pending := CutPromotion(dir, d, stage, clear, last, n - |a| - |clear|, cleanup, verified);
      }
    }
  }

  /** Stopped while clearing, or right after the swap and before its fsync. */
  lemma CutClearing(dir: Dir, d: Digest, stage: seq<Op>, clear: seq<Op>, cleanup: seq<Op>, verified: set<Digest>)
    returns (synced: seq<Op>, pending: seq<Op>)
    requires IsStaging(stage) && IsStaging(cleanup) && Safe(dir, verified)
    requires forall op :: op in clear ==> op.Up? && KeepsUnready(op.update)
    ensures CutAt(dir, stage + Invalidate(dir) + clear + cleanup, synced, pending, d, verified + {d})
  {
    hide After;
    NothingDone(dir);
    if dir.report.Some? {
      synced, pending := stage + Invalidate(dir), clear + cleanup;
      Invalidated(dir, stage);
      assert synced + pending == stage + Invalidate(dir) + clear + cleanup;
    } else {
      synced, pending := [], stage + clear + cleanup;
      assert synced + pending == stage + Invalidate(dir) + clear + cleanup;
    }
  }

  lemma CutPromotion(dir: Dir, d: Digest, stage: seq<Op>, clear: seq<Op>, last: seq<Op>, m: nat, cleanup: seq<Op>,
          verified: set<Digest>)
    returns (synced: seq<Op>, pending: seq<Op>)
    requires IsStaging(stage) && IsClearing(clear) && IsStaging(last) && IsStaging(cleanup) && Safe(dir, verified)
    requires 0 < m <= |Promote(d) + last|
    ensures CutAt(dir, stage + Invalidate(dir) + (clear + (Promote(d) + last)[..m]) + cleanup, synced, pending, d, verified + {d})
  {
    PrefixOfConcat(Promote(d), last, m);
    if m == 1 {
      synced, pending := CutClearing(dir, d, stage, clear + Promote(d)[..1], cleanup, verified);
    } else if m < 5 {
      hide *;
      synced, pending := CutMarking(dir, d, stage, clear, m, cleanup, verified);
      Regroup(stage + Invalidate(dir), clear, [Up(SetCorpus(d)), Fsync], Promote(d)[2..m], cleanup);
    } else {
      hide *;
      synced, pending := CutFinished(dir, d, stage, clear, last[..m - 5], cleanup, verified);
    }
  }

  /** Stopped after the marker is durable. */
  lemma CutFinished(dir: Dir, d: Digest, stage: seq<Op>, clear: seq<Op>, last: seq<Op>, cleanup: seq<Op>, verified: set<Digest>)
    returns (synced: seq<Op>, pending: seq<Op>)
    requires IsStaging(stage) && IsClearing(clear) && IsStaging(last) && IsStaging(cleanup)
    ensures CutAt(dir, stage + Invalidate(dir) + (clear + (Promote(d) + last)) + cleanup, synced, pending, d, verified + {d})
  {
    hide After, Invalidate, Harmless;
    var swap, mark := [Up(SetCorpus(d)), Fsync], Promote(d)[2..];
    var before := stage + Invalidate(dir);
    Swapped(dir, stage, clear, d);
    assert Promote(d) == swap + mark && mark == [Promote(d)[2], Promote(d)[3], Promote(d)[4]];
    synced, pending := CutDone(dir, d, before + clear + swap, last, cleanup, verified);
    assert swap + mark + last == swap + (mark + last);
    Regroup(before, clear, swap, mark + last, cleanup);
    assert before + clear + swap + mark + last == before + clear + swap + (mark + last);
  }

  lemma Regroup(a: seq<Op>, b: seq<Op>, c: seq<Op>, e: seq<Op>, f: seq<Op>)
    ensures a + (b + (c + e)) + f == a + b + c + e + f
  {
    assert a + (b + (c + e)) == a + b + c + e;
  }

  /** Stopped between the durable swap and the durable marker. */
  lemma CutMarking(dir: Dir, d: Digest, stage: seq<Op>, clear: seq<Op>, m: nat, cleanup: seq<Op>, verified: set<Digest>)
    returns (synced: seq<Op>, pending: seq<Op>)
    requires IsStaging(stage) && IsClearing(clear) && IsStaging(cleanup) && 2 <= m < 5
    ensures CutAt(dir, stage + Invalidate(dir) + clear + [Up(SetCorpus(d)), Fsync] + Promote(d)[2..m] + cleanup,
                  synced, pending, d, verified + {d})
  {
    hide After, Invalidate;
    var swapped := stage + Invalidate(dir) + clear + [Up(SetCorpus(d)), Fsync];
    Swapped(dir, stage, clear, d);
    synced, pending := swapped, Promote(d)[2..m] + cleanup;
    assert synced + pending == swapped + Promote(d)[2..m] + cleanup;
  }

  lemma CutDone(dir: Dir, d: Digest, swapped: seq<Op>, rest: seq<Op>, cleanup: seq<Op>, verified: set<Digest>)
    returns (synced: seq<Op>, pending: seq<Op>)
    requires IsStaging(rest) && IsStaging(cleanup) && After(dir, swapped).corpus == Whole(d)
    ensures var p := Promote(d);
      CutAt(dir, swapped + [p[2], p[3], p[4]] + rest + cleanup, synced, pending, d, verified + {d})
  {
    hide After;
    var p := Promote(d);
    synced, pending := swapped + [p[2], p[3], p[4]], rest + cleanup;
    Marked(dir, swapped, d);
    assert synced + pending == swapped + [p[2], p[3], p[4]] + rest + cleanup;
  }

  lemma Marked(dir: Dir, swapped: seq<Op>, d: Digest)
    requires After(dir, swapped).corpus == Whole(d)
    ensures var p := Promote(d);
      var after := After(dir, swapped + [p[2], p[3], p[4]]);
      after.report == Some(d) && after.corpus == Whole(d)
  {
    hide After;
    var add, set', sync := Up(AddEntry(TEMPORARY_REPORT)), Up(SetReport(d)), Fsync;
    AfterOne(dir, swapped, add);
    AfterOne(dir, swapped + [add], set');
    AfterOne(dir, swapped + [add] + [set'], sync);
    assert swapped + [add] + [set'] + [sync] == swapped + [add, set', sync];
  }

  // ---------- Crash safety ----------

  /** Wherever a run swaps a corpus in, it is the sealed one, and nothing but the run's stage is
      left in the directory: no marker, no old corpus. */
  lemma SwapsOntoNothing(dir: Dir, d: Digest, ops: seq<Op>, i: nat, x: Digest) returns (e: Entry)
    requires IsRun(dir, d, ops) && i < |ops| && ops[i] == Up(SetCorpus(x))
    ensures x == d && IsStage(e) && After(dir, ops[..i]) == Dir(None, Missing, {e})
  {
    hide After, Invalidate, IsStage;
    var stage, clear, last, n: nat, cleanup;
    e, stage, clear, last, n, cleanup :| StopsAfter(dir, d, ops, e, stage, clear, last, n, cleanup);
    OnlySwap(dir, d, stage, clear, last, n, cleanup, i, x);
    assert ops[..i] == stage + Invalidate(dir) + clear;
  }

  lemma OnlySwap(dir: Dir, d: Digest, stage: seq<Op>, clear: seq<Op>, last: seq<Op>, n: nat, cleanup: seq<Op>, i: nat, x: Digest)
    requires IsStaging(stage) && IsClearing(clear) && IsStaging(last) && IsStaging(cleanup)
    requires n <= |Publishing(dir, d, clear, last)|
    requires var ops := stage + Publishing(dir, d, clear, last)[..n] + cleanup; i < |ops| && ops[i] == Up(SetCorpus(x))
    ensures x == d && i == |stage + Invalidate(dir) + clear| && n > |Invalidate(dir) + clear|
  {
    var ops := stage + Publishing(dir, d, clear, last)[..n] + cleanup;
    NoSwap(stage);
    NoSwap(cleanup);
    NoSwap(Invalidate(dir) + clear);
    NoSwap(Promote(d)[1..] + last);
    assert ops == stage + (Invalidate(dir) + clear + [Up(SetCorpus(d))] + (Promote(d)[1..] + last))[..n] + cleanup;
  }

  /** Calls other than the swap. */
  lemma NoSwap(ops: seq<Op>)
    requires forall op :: op in ops ==> op.Up? ==> !op.update.SetCorpus?
    ensures forall i :: 0 <= i < |ops| ==> !ops[i].Up? || !ops[i].update.SetCorpus?
  {
    assert forall i :: 0 <= i < |ops| ==> ops[i] in ops;
  }

  lemma {:induction false} AfterUpdates(dir: Dir, pending: seq<Op>)
    requires NoFsync(pending)
    ensures After(dir, pending) == ApplyAll(dir, UpdatesOf(pending))
  {
    if pending != [] {
      var n := |pending| - 1;
      assert pending[n] in pending;
      AfterUpdates(dir, pending[..n]);
      assert UpdatesOf(pending)[..n] == UpdatesOf(pending[..n]);
    }
  }

  lemma CutIsSafe(dir: Dir, ops: seq<Op>, synced: seq<Op>, pending: seq<Op>, d: Digest, verified: set<Digest>)
    requires CutAt(dir, ops, synced, pending, d, verified)
    ensures Safe(After(dir, ops), verified)
  {
    AfterConcat(dir, synced, pending);
    AfterUpdates(After(dir, synced), pending);
    HarmlessIsSafe(After(dir, synced), pending, d, verified, UpdatesOf(pending));
  }

  /** A process crash anywhere in a run that verified `d` - the run may be cut after any call -
      leaves a marker only over its own verified corpus. */
  lemma CrashIsSafe(dir: Dir, d: Digest, ops: seq<Op>, verified: set<Digest>)
    requires IsRun(dir, d, ops) && Safe(dir, verified)
    ensures Safe(After(dir, ops), verified + {d})
  {
    var synced, pending := CutRun(dir, d, ops, verified);
    CutIsSafe(dir, ops, synced, pending, d, verified + {d});
  }

  /** A rejected run, likewise, and no new digest becomes ready. */
  lemma RejectionIsSafe(dir: Dir, ops: seq<Op>, verified: set<Digest>)
    requires IsRejectedRun(ops) && Safe(dir, verified)
    ensures Safe(After(dir, ops), verified)
  {
    var synced, pending := CutRejected(dir, ops, "", verified);
    CutIsSafe(dir, ops, synced, pending, "", verified);
  }

  function AfterAttempts(dir: Dir, attempts: seq<Attempt>): Dir {
    if attempts == [] then dir else After(AfterAttempts(dir, attempts[..|attempts| - 1]), attempts[|attempts| - 1].ops)
  }

  ghost predicate AreAttempts(dir: Dir, attempts: seq<Attempt>) {
    attempts == [] || (AreAttempts(dir, attempts[..|attempts| - 1])
                       && IsAttempt(AfterAttempts(dir, attempts[..|attempts| - 1]), attempts[|attempts| - 1]))
  }

  function SealedBy(attempts: seq<Attempt>): set<Digest> {
    if attempts == [] then {}
    else
      SealedBy(attempts[..|attempts| - 1])
      + match attempts[|attempts| - 1].Seal() case None => {} case Some(d) => {d}
  }

  /** Over any sequence of runs, each cut anywhere: if the marker exists, the corpus is whole,
      has the marker's digest, and that digest was sealed by one of the runs (or was already
      published when the sequence began). */
  lemma {:induction false} AnySequenceOfRunsIsSafe(dir: Dir, attempts: seq<Attempt>, verified: set<Digest>)
    requires AreAttempts(dir, attempts) && Safe(dir, verified)
    ensures Safe(AfterAttempts(dir, attempts), verified + SealedBy(attempts))
  {
    hide IsRun, IsRejectedRun, After, Safe;
    if attempts == [] {
      assert verified + {} == verified;
    } else {
      var before := attempts[..|attempts| - 1];
      var last := attempts[|attempts| - 1];
      AnySequenceOfRunsIsSafe(dir, before, verified);
      match last.Seal() {
        case None =>
          RejectionIsSafe(AfterAttempts(dir, before), last.ops, verified + SealedBy(before));
          assert verified + SealedBy(attempts) == verified + SealedBy(before);
        case Some(d) =>
          CrashIsSafe(AfterAttempts(dir, before), d, last.ops, verified + SealedBy(before));
          assert verified + SealedBy(attempts) == verified + SealedBy(before) + {d};
      }
    }
  }

  // ---------- Power loss ----------

  lemma SameCut(synced: seq<Op>, pending: seq<Op>, synced': seq<Op>, pending': seq<Op>)
    requires synced + pending == synced' + pending'
    requires EndsSynced(synced) && NoFsync(pending) && EndsSynced(synced') && NoFsync(pending')
    ensures synced == synced' && pending == pending'
  {
    CutNoLater(synced, pending, synced', pending');
    CutNoLater(synced', pending', synced, pending);
    var ops := synced + pending;
    assert synced == ops[..|synced|] && synced' == (synced' + pending')[..|synced|];
    assert pending == ops[|synced|..] && pending' == (synced' + pending')[|synced|..];
  }

  lemma CutNoLater(a: seq<Op>, p: seq<Op>, b: seq<Op>, q: seq<Op>)
    requires a + p == b + q && NoFsync(p) && EndsSynced(b)
    ensures |b| <= |a|
  {
    assert forall j :: |a| <= j < |a + p| ==> (a + p)[j] in p;
    if b != [] {
      assert (b + q)[|b| - 1] == Fsync;
    }
  }

  lemma {:induction false} CutOf(ops: seq<Op>) returns (synced: seq<Op>, pending: seq<Op>)
    ensures ops == synced + pending && EndsSynced(synced) && NoFsync(pending)
  {
    synced, pending := ops, [];
    if ops != [] && ops[|ops| - 1].Up? {
      var n := |ops| - 1;
      synced, pending := CutOf(ops[..n]);
      assert ops == ops[..n] + [ops[n]];
      pending := pending + [ops[n]];
    }
  }

  /** Whatever power loss after these calls may leave is safe. */
  ghost predicate PowerSafe(dir: Dir, ops: seq<Op>, verified: set<Digest>) {
    forall left :: MaySurvive(dir, ops, left) ==> Safe(left, verified)
  }

  lemma HarmlessMeansPowerSafe(dir: Dir, ops: seq<Op>, synced: seq<Op>, pending: seq<Op>, d: Digest, verified: set<Digest>)
    requires ops == synced + pending && EndsSynced(synced) && Harmless(After(dir, synced), pending, d, verified)
    ensures PowerSafe(dir, ops, verified)
  {
    forall left | MaySurvive(dir, ops, left) ensures Safe(left, verified) {
      var synced', pending', us :| ops == synced' + pending' && EndsSynced(synced') && NoFsync(pending')
        && multiset(us) <= multiset(UpdatesOf(pending')) && left == ApplyAll(After(dir, synced'), us);
      SameCut(synced, pending, synced', pending');
      HarmlessIsSafe(After(dir, synced), pending, d, verified, us);
    }
  }

  /** Power loss after any call of a run started on a synced directory: whatever subset of the
      updates since the last directory fsync survives, in whatever order, readiness holds. */
  lemma PowerLossIsSafe(dir: Dir, d: Digest, ops: seq<Op>, verified: set<Digest>)
    requires IsRun(dir, d, ops) && Safe(dir, verified)
    ensures PowerSafe(dir, ops, verified + {d})
  {
    var synced, pending := CutRun(dir, d, ops, verified);
    HarmlessMeansPowerSafe(dir, ops, synced, pending, d, verified + {d});
  }

  // ---------- Power loss over several runs ----------

  /** The calls of all attempts, in order. */
  function OpsOf(attempts: seq<Attempt>): seq<Op> {
    if attempts == [] then [] else OpsOf(attempts[..|attempts| - 1]) + attempts[|attempts| - 1].ops
  }

  /** The marker has been removed, and no directory fsync has followed yet. */
  predicate RemovalPending(ops: seq<Op>) {
    ops != [] && ops[|ops| - 1] != Fsync && (ops[|ops| - 1] == Up(DropReport) || RemovalPending(ops[..|ops| - 1]))
  }

  /** No attempt was started while a removal of the marker was pending. */
  ghost predicate StartsSettled(attempts: seq<Attempt>) {
    forall n :: 0 <= n < |attempts| ==> !RemovalPending(OpsOf(attempts[..n]))
  }

  lemma {:induction false} RemovalIsInPending(ops: seq<Op>, synced: seq<Op>, pending: seq<Op>)
    requires ops == synced + pending && EndsSynced(synced) && NoFsync(pending)
    ensures RemovalPending(ops) <==> Up(DropReport) in pending
    decreases |pending|
  {
    if pending == [] {
      assert ops == synced;
    } else {
      var n := |pending| - 1;
      assert pending == pending[..n] + [pending[n]] && pending[n] in pending;
      assert ops[..|ops| - 1] == synced + pending[..n] && ops[|ops| - 1] == pending[n];
      RemovalIsInPending(ops[..|ops| - 1], synced, pending[..n]);
    }
  }

  lemma {:induction false} AfterOpsOf(dir: Dir, attempts: seq<Attempt>)
    ensures After(dir, OpsOf(attempts)) == AfterAttempts(dir, attempts)
  {
    if attempts != [] {
      var n := |attempts| - 1;
      AfterOpsOf(dir, attempts[..n]);
      AfterConcat(dir, OpsOf(attempts[..n]), attempts[n].ops);
    }
  }

  /** Where no marker is visible and none was removed, none can come back. */
  lemma {:induction false} NoMarkerToComeBack(base: Dir, pending: seq<Op>)
    requires NoFsync(pending) && Up(DropReport) !in pending && After(base, pending).report == None
    ensures base.report == None && forall op :: op in pending ==> KeepsUnready(op.update)
  {
    if pending != [] {
      var n := |pending| - 1;
      var before, op := pending[..n], pending[n];
      assert pending == before + [op] && op in pending;
      AfterOne(base, before, op);
      NoneBefore(After(base, before), op);
      assert forall o :: o in before ==> o in pending;
      hide After, KeepsUnready;
      NoMarkerToComeBack(base, before);
      assert forall o :: o in pending ==> o in before || o == op;
    }
  }

  lemma NoneBefore(dir: Dir, op: Op)
    requires op.Up? && op != Up(DropReport) && Effect(dir, op).report == None
    ensures dir.report == None && KeepsUnready(op.update)
  {
  }

  /** One more attempt from a settled start keeps every outcome of the pending updates safe. */
  lemma OneMoreAttempt(base: Dir, pending: seq<Op>, d0: Digest, dir: Dir, ops: seq<Op>, synced: seq<Op>, last: seq<Op>,
          d: Digest, verified: set<Digest>)
    requires Harmless(base, pending, d0, verified) && dir == After(base, pending) && Up(DropReport) !in pending
    requires CutAt(dir, ops, synced, last, d, verified) && synced == []
    ensures Harmless(base, pending + last, d0, verified)
  {
    assert forall op :: op in pending + last <==> op in pending || op in last;
    if exists op :: op in last && !KeepsPair(op.update) {
      assert dir.report == None;
      NoMarkerToComeBack(base, pending);
    }
  }

  /** The pending updates after a sequence of attempts with settled starts can do no harm. */
  lemma {:induction false} AttemptsStayHarmless(dir: Dir, attempts: seq<Attempt>, verified: set<Digest>)
    returns (synced: seq<Op>, pending: seq<Op>, d: Digest)
    requires AreAttempts(dir, attempts) && StartsSettled(attempts) && Safe(dir, verified)
    ensures OpsOf(attempts) == synced + pending && EndsSynced(synced)
    ensures Harmless(After(dir, synced), pending, d, verified + SealedBy(attempts))
    decreases |attempts|
  {
    if attempts == [] {
      synced, pending, d := [], [], "";
      NothingPending(dir, verified);
      assert verified + {} == verified;
    } else {
      var n := |attempts| - 1;
      var before, last := attempts[..n], attempts[n];
      SettledPrefix(attempts, n);
      LastAttempt(dir, attempts);
      hide *;
      synced, pending, d := AttemptsStayHarmless(dir, before, verified);
      AnySequenceOfRunsIsSafe(dir, before, verified);
      var all := verified + SealedBy(attempts);
      var d', synced', pending' := CutAttempt(AfterAttempts(dir, before), last, verified + SealedBy(before), all);
      AfterOpsOf(dir, before);
      synced, pending, d := JoinCuts(dir, OpsOf(before), last.ops, synced, pending, d, synced', pending', d',
                                     verified + SealedBy(before), all);
    }
  }

  /** The cut of one more attempt joins the cut of what came before. */
  lemma JoinCuts(dir: Dir, ops: seq<Op>, more: seq<Op>, synced: seq<Op>, pending: seq<Op>, d: Digest,
                 synced': seq<Op>, pending': seq<Op>, d': Digest, verified: set<Digest>, all: set<Digest>)
    returns (s: seq<Op>, p: seq<Op>, e: Digest)
    requires ops == synced + pending && EndsSynced(synced) && Harmless(After(dir, synced), pending, d, verified)
    requires !RemovalPending(ops) && verified <= all && CutAt(After(dir, ops), more, synced', pending', d', all)
    ensures ops + more == s + p && EndsSynced(s) && Harmless(After(dir, s), p, e, all)
  {
    HarmlessHasNoFsync(After(dir, synced), pending, d, verified);
    RemovalIsInPending(ops, synced, pending);
    AfterConcat(dir, synced, pending);
    CutIsHarmless(After(dir, ops), more, synced', pending', d', all);
    if synced' == [] {
      MoreVerified(After(dir, synced), pending, d, verified, all);
      OneMoreAttempt(After(dir, synced), pending, d, After(dir, ops), more, synced', pending', d', all);
      hide *;
      assert [] + pending' == pending';
      s, p, e := synced, pending + pending', d;
      assert synced + pending + pending' == synced + (pending + pending');
    } else {
      AfterConcat(dir, ops, synced');
      EndsSyncedConcat(ops, synced');
      hide *;
      s, p, e := ops + synced', pending', d';
      assert ops + (synced' + pending') == (ops + synced') + pending';
    }
  }

  lemma EndsSyncedConcat(a: seq<Op>, b: seq<Op>)
    requires EndsSynced(b) && b != []
    ensures EndsSynced(a + b)
  {
  }

  lemma NothingPending(dir: Dir, verified: set<Digest>)
    requires Safe(dir, verified)
    ensures After(dir, []) == dir && Harmless(dir, [], "", verified)
  {
  }

  lemma SettledPrefix(attempts: seq<Attempt>, n: nat)
    requires StartsSettled(attempts) && n < |attempts|
    ensures StartsSettled(attempts[..n]) && !RemovalPending(OpsOf(attempts[..n]))
  {
    forall m | 0 <= m < n ensures !RemovalPending(OpsOf(attempts[..n][..m])) {
      assert attempts[..n][..m] == attempts[..m];
    }
  }

  lemma HarmlessHasNoFsync(base: Dir, pending: seq<Op>, d: Digest, verified: set<Digest>)
    requires Harmless(base, pending, d, verified)
    ensures NoFsync(pending)
  {
  }

  lemma CutIsHarmless(dir: Dir, ops: seq<Op>, synced: seq<Op>, pending: seq<Op>, d: Digest, verified: set<Digest>)
    requires CutAt(dir, ops, synced, pending, d, verified)
    ensures ops == synced + pending && EndsSynced(synced) && Harmless(After(dir, synced), pending, d, verified)
  {
  }

  lemma CutAttempt(dir: Dir, a: Attempt, verified: set<Digest>, all: set<Digest>)
    returns (d: Digest, synced: seq<Op>, pending: seq<Op>)
    requires IsAttempt(dir, a) && Safe(dir, verified)
    requires all == verified + match a.Seal() case None => {} case Some(s) => {s}
    ensures CutAt(dir, a.ops, synced, pending, d, all) && a.ops == synced + pending
  {
    hide IsRun, IsRejectedRun, Safe, Harmless, After;
    match a.Seal() {
      case None =>
        d := "";
        synced, pending := CutRejected(dir, a.ops, d, verified);
        assert all == verified;
      case Some(s) =>
        d := s;
        synced, pending := CutRun(dir, s, a.ops, verified);
    }
  }

  /** Power loss at any point of any sequence of attempts is safe as long as none of them was
      started while a removal of the marker was pending. */
  lemma SettledStartsSurvivePowerLoss(dir: Dir, attempts: seq<Attempt>, verified: set<Digest>)
    requires AreAttempts(dir, attempts) && StartsSettled(attempts) && Safe(dir, verified)
    ensures PowerSafe(dir, OpsOf(attempts), verified + SealedBy(attempts))
  {
    var synced, pending, d := AttemptsStayHarmless(dir, attempts, verified);
    HarmlessMeansPowerSafe(dir, OpsOf(attempts), synced, pending, d, verified + SealedBy(attempts));
  }

  // ---------- When a removal is pending ----------

  lemma {:induction false} RemovalOfConcat(a: seq<Op>, b: seq<Op>)
    requires RemovalPending(a + b) && !RemovalPending(a)
    ensures RemovalPending(b)
    decreases |b|
  {
    assert b == [] ==> a + b == a;
    if b != [] {
      assert (a + b)[..|a + b| - 1] == a + b[..|b| - 1];
      if b[|b| - 1] != Up(DropReport) {
        RemovalOfConcat(a, b[..|b| - 1]);
      }
    }
  }

  lemma {:induction false} NoRemovalAfterFsync(a: seq<Op>, b: seq<Op>)
    requires Up(DropReport) !in b
    ensures !RemovalPending(a + [Fsync] + b)
    decreases |b|
  {
    var ops := a + [Fsync] + b;
    if b == [] {
      assert ops == a + [Fsync];
    } else {
      assert b[|b| - 1] in b && ops[..|ops| - 1] == a + [Fsync] + b[..|b| - 1];
      NoRemovalAfterFsync(a, b[..|b| - 1]);
    }
  }

  lemma {:induction false} NoRemovalAtAll(ops: seq<Op>)
    requires Up(DropReport) !in ops
    ensures !RemovalPending(ops)
  {
    if ops != [] {
      assert ops[|ops| - 1] in ops;
      NoRemovalAtAll(ops[..|ops| - 1]);
    }
  }

  /** An attempt that ends with its removal pending got just that far. */
  lemma RemovalShape(dir: Dir, a: Attempt) returns (stage: seq<Op>, cleanup: seq<Op>)
    requires IsAttempt(dir, a) && RemovalPending(a.ops)
    ensures IsStaging(stage) && IsStaging(cleanup) && dir.report.Some? && a.ops == stage + [Up(DropReport)] + cleanup
  {
    var n: nat, rest: seq<Op>;
    stage, rest, n, cleanup := AttemptShape(dir, a);
    CutShape(dir, stage, rest, n, cleanup);
  }

  lemma CutShape(dir: Dir, stage: seq<Op>, rest: seq<Op>, n: nat, cleanup: seq<Op>)
    requires IsStaging(stage) && IsStaging(cleanup) && Up(DropReport) !in rest && n <= |stage + Invalidate(dir) + rest|
    requires RemovalPending((stage + Invalidate(dir) + rest)[..n] + cleanup)
    ensures dir.report.Some? && (stage + Invalidate(dir) + rest)[..n] == stage + [Up(DropReport)]
  {
    NoRemovalInStaging(stage);
    NoRemovalInStaging(cleanup);
    hide IsStaging, RemovalPending;
    var full := stage + Invalidate(dir) + rest;
    if dir.report == None {
      assert full == stage + rest;
      NotInPrefix(stage, rest, n);
      NoRemovalAtAll(full[..n] + cleanup);
    } else if n <= |stage| {
      assert full[..n] == stage[..n];
      NotInPrefix(stage, [], n);
      assert stage + [] == stage;
      NoRemovalAtAll(full[..n] + cleanup);
    } else if n > |stage| + 1 {
      var after := rest[..n - |stage| - 2];
      NotInPrefix(rest, [], n - |stage| - 2);
      assert rest + [] == rest && full[..n] == stage + [Up(DropReport)] + [Fsync] + after;
      assert full[..n] + cleanup == stage + [Up(DropReport)] + [Fsync] + (after + cleanup);
      NoRemovalAfterFsync(stage + [Up(DropReport)], after + cleanup);
    } else {
      assert full[..n] == stage + [Up(DropReport)];
    }
  }

  lemma NoRemovalInStaging(ops: seq<Op>)
    requires IsStaging(ops)
    ensures Up(DropReport) !in ops
  {
  }

  lemma NotInPrefix(a: seq<Op>, b: seq<Op>, n: nat)
    requires n <= |a + b| && Up(DropReport) !in a && Up(DropReport) !in b
    ensures Up(DropReport) !in (a + b)[..n]
  {
  }

  lemma AttemptShape(dir: Dir, a: Attempt) returns (stage: seq<Op>, rest: seq<Op>, n: nat, cleanup: seq<Op>)
    requires IsAttempt(dir, a)
    ensures IsStaging(stage) && IsStaging(cleanup) && Up(DropReport) !in rest
    ensures n <= |stage + Invalidate(dir) + rest| && a.ops == (stage + Invalidate(dir) + rest)[..n] + cleanup
  {
    match a.Seal() {
      case None =>
        stage, rest, n, cleanup := a.ops, [], |a.ops|, [];
        assert (a.ops + Invalidate(dir) + [])[..|a.ops|] + [] == a.ops;
      case Some(d) =>
        var e, clear, last, m;
        e, stage, clear, last, m, cleanup :| StopsAfter(dir, d, a.ops, e, stage, clear, last, m, cleanup);
        StoppedShape(dir, d, stage, clear, last, m);
        rest, n := clear + (Promote(d) + last), |stage| + m;
    }
  }

  /** Marker `r` may stand after power loss: it is durable, or its renaming is pending. */
  ghost predicate MayReturn(base: Dir, pending: seq<Op>, r: Digest) {
    NoFsync(pending) && (base.report == Some(r) || Up(SetReport(r)) in pending)
  }

  lemma {:induction false} MarkerSomewhere(base: Dir, pending: seq<Op>, r: Digest)
    requires NoFsync(pending) && After(base, pending).report == Some(r)
    ensures MayReturn(base, pending, r)
  {
    if pending != [] {
      var n := |pending| - 1;
      assert pending[n] in pending && forall op :: op in pending[..n] ==> op in pending;
      if pending[n] != Up(SetReport(r)) {
        MarkerSomewhere(base, pending[..n], r);
      }
    }
  }

  /** The unsafe outcome: the old marker survives over the new corpus. */
  lemma OldMarkerOverNewCorpus(base: Dir, pending: seq<Op>, r: Digest, d: Digest) returns (us: seq<Update>)
    requires MayReturn(base, pending, r)
    ensures NoFsync(pending + [Up(SetCorpus(d))]) && multiset(us) <= multiset(UpdatesOf(pending + [Up(SetCorpus(d))]))
    ensures ApplyAll(base, us).report == Some(r) && ApplyAll(base, us).corpus == Whole(d)
  {
    var all := pending + [Up(SetCorpus(d))];
    assert forall op :: op in all ==> op.Up?;
    assert UpdatesOf(all) == UpdatesOf(pending) + [SetCorpus(d)];
    if base.report == Some(r) {
      us := [SetCorpus(d)];
      OneUpdate(base, SetCorpus(d));
      OneAmong(UpdatesOf(pending), SetCorpus(d));
    } else {
      us := [SetReport(r), SetCorpus(d)];
      var i :| 0 <= i < |pending| && pending[i] == Up(SetReport(r));
      assert UpdatesOf(pending)[i] == SetReport(r);
      hide UpdatesOf, NoFsync, MayReturn;
      OneUpdate(base, SetReport(r));
      assert us[..1] == [SetReport(r)];
      TwoAmong(UpdatesOf(pending), SetReport(r), SetCorpus(d));
    }
  }

  lemma OneAmong(us: seq<Update>, u: Update)
    ensures multiset([u]) <= multiset(us + [u])
  {
  }

  lemma TwoAmong(us: seq<Update>, u: Update, v: Update)
    requires u in us
    ensures multiset([u, v]) <= multiset(us + [v])
  {
    assert multiset([u, v]) == multiset{u} + multiset{v};
    assert u in multiset(us);
  }

  /** Removing entries one after the other, in some order. */
  lemma {:induction false} DropAll(dir: Dir, es: set<Entry>) returns (ops: seq<Op>)
    ensures forall op :: op in ops ==> op.Up? && op.update.DropEntry? && op.update.entry in es
    ensures After(dir, ops) == dir.(entries := dir.entries - es)
  {
    ops := [];
    if es == {} {
      assert dir.entries - es == dir.entries;
    } else {
      var e :| e in es;
      var before := DropAll(dir, es - {e});
      ops := before + [Up(DropEntry(e))];
      AfterOne(dir, before, Up(DropEntry(e)));
      assert dir.entries - (es - {e}) - {e} == dir.entries - es;
    }
  }

  /** Removing the corpus passes through half-deleted states. */
  lemma DropTheCorpus(dir: Dir) returns (ops: seq<Op>)
    ensures IsClearing(ops) && After(dir, ops) == dir.(corpus := Missing)
  {
    ops := [];
    if dir.corpus != Missing {
      ops := [Up(DamageCorpus), Up(DropCorpus)];
      AfterOne(dir, [], Up(DamageCorpus));
      AfterOne(dir, [] + [Up(DamageCorpus)], Up(DropCorpus));
      assert [] + [Up(DamageCorpus)] + [Up(DropCorpus)] == ops;
    }
  }

  /** Stale stages go, the run's own comes. */
  lemma OwnStage(dir: Dir, e: Entry) returns (stage: seq<Op>)
    requires IsStage(e)
    ensures StagedAs(stage, e)
    ensures After(dir, stage) == dir.(entries := (set x | x in dir.entries && !IsStage(x)) + {e})
  {
    var stale := set x | x in dir.entries && IsStage(x);
    var drops := DropAll(dir, stale);
    stage := drops + [Up(AddEntry(e))];
    AfterOne(dir, drops, Up(AddEntry(e)));
    assert dir.entries - stale == set x | x in dir.entries && !IsStage(x);
  }

  /** The corpus and every entry but the stage go. */
  lemma ClearAll(dir: Dir, e: Entry) returns (clear: seq<Op>)
    requires dir.report == None && e in dir.entries
    ensures IsClearing(clear) && After(dir, clear) == Dir(None, Missing, {e})
  {
    var first := DropTheCorpus(dir);
    var rest := DropAll(After(dir, first), dir.entries - {e});
    clear := first + rest;
    AfterConcat(dir, first, rest);
    assert dir.entries - (dir.entries - {e}) == {e};
  }

  /** A run on a directory without a marker, cut right after it swapped its corpus in: it removed
      the stale stages, made its own, cleared the directory, and had nothing to sync. */
  lemma SwappingRun(dir: Dir, d: Digest) returns (work: seq<Op>)
    requires dir.report == None
    ensures IsRun(dir, d, work + [Up(SetCorpus(d))]) && NoFsync(work)
  {
    hide After;
    var e := Entry(STAGING_PREFIX + "x", true);
    var stage := OwnStage(dir, e);
    var clear := ClearAll(After(dir, stage), e);
    work := stage + clear;
    AfterConcat(dir, stage, clear);
    SwapStops(dir, d, e, stage, clear);
    UnsyncedWork(stage, clear);
  }

  lemma UnsyncedWork(stage: seq<Op>, clear: seq<Op>)
    requires IsStaging(stage) && IsClearing(clear)
    ensures NoFsync(stage + clear)
  {
  }

  lemma SwapStops(dir: Dir, d: Digest, e: Entry, stage: seq<Op>, clear: seq<Op>)
    requires dir.report == None && StagedAs(stage, e) && IsClearing(clear)
    requires After(dir, stage + clear) == Dir(None, Missing, {e})
    ensures IsRun(dir, d, stage + clear + [Up(SetCorpus(d))])
  {
    hide StagedAs, IsClearing, IsStaging, After;
    NothingStaged();
    var swap := clear + [Up(SetCorpus(d))];
    assert Invalidate(dir) == [] && stage + [] + clear == stage + clear;
    assert Publishing(dir, d, clear, [])[..|clear| + 1] == swap;
    assert stage + swap + [] == stage + clear + [Up(SetCorpus(d))];
    assert StopsAfter(dir, d, stage + clear + [Up(SetCorpus(d))], e, stage, clear, [], |clear| + 1, []);
  }

  /** While a removal is pending no marker is visible, and the old one may still come back. */
  lemma PendingRemoval(dir: Dir, attempts: seq<Attempt>) returns (r: Digest, synced: seq<Op>, pending: seq<Op>)
    requires AreAttempts(dir, attempts) && StartsSettled(attempts) && RemovalPending(OpsOf(attempts))
    ensures AfterAttempts(dir, attempts).report == None
    ensures OpsOf(attempts) == synced + pending && EndsSynced(synced) && MayReturn(After(dir, synced), pending, r)
  {
    hide *;
    var before, last := LastRemoval(dir, attempts);
    r := AfterAttempts(dir, before).report.value;
    var pending0;
    synced, pending0 := CutOf(OpsOf(before));
    AfterOpsOf(dir, before);
    AfterConcat(dir, synced, pending0);
    MarkerSomewhere(After(dir, synced), pending0, r);
    pending := pending0 + last;
    assert synced + pending0 + last == synced + pending;
    MorePending(After(dir, synced), pending0, last, r);
  }

  lemma MorePending(base: Dir, a: seq<Op>, b: seq<Op>, r: Digest)
    requires MayReturn(base, a, r) && NoFsync(b)
    ensures MayReturn(base, a + b, r)
  {
  }

  lemma LastRemoval(dir: Dir, attempts: seq<Attempt>) returns (before: seq<Attempt>, last: seq<Op>)
    requires AreAttempts(dir, attempts) && StartsSettled(attempts) && RemovalPending(OpsOf(attempts))
    ensures AfterAttempts(dir, before).report.Some? && AfterAttempts(dir, attempts).report == None
    ensures NoFsync(last) && OpsOf(attempts) == OpsOf(before) + last
  {
    assert attempts != [];
    var n := |attempts| - 1;
    before := attempts[..n];
    SettledPrefix(attempts, n);
    LastAttempt(dir, attempts);
    hide *;
    last := attempts[n].ops;
    RemovalOfConcat(OpsOf(before), last);
    var stage, cleanup := RemovalShape(AfterAttempts(dir, before), attempts[n]);
    RemovedAfter(AfterAttempts(dir, before), stage, cleanup);
    StagingIsUnsynced(stage, cleanup);
  }

  lemma StagingIsUnsynced(stage: seq<Op>, cleanup: seq<Op>)
    requires IsStaging(stage) && IsStaging(cleanup)
    ensures NoFsync(stage + [Up(DropReport)] + cleanup)
  {
  }

  lemma LastAttempt(dir: Dir, attempts: seq<Attempt>)
    requires AreAttempts(dir, attempts) && attempts != []
    ensures var before, last := attempts[..|attempts| - 1], attempts[|attempts| - 1];
      && AreAttempts(dir, before) && IsAttempt(AfterAttempts(dir, before), last)
      && OpsOf(attempts) == OpsOf(before) + last.ops
      && AfterAttempts(dir, attempts) == After(AfterAttempts(dir, before), last.ops)
      && SealedBy(attempts) == SealedBy(before) + match last.Seal() case None => {} case Some(d) => {d}
  {
    hide After, IsRun, IsRejectedRun;
  }

  /** A run started while a removal is pending can be cut so that power loss leaves the old
      marker over its new corpus. */
  lemma PendingRemovalIsUnsafe(dir: Dir, attempts: seq<Attempt>) returns (next: Attempt, left: Dir)
    requires AreAttempts(dir, attempts) && StartsSettled(attempts) && RemovalPending(OpsOf(attempts))
    ensures IsAttempt(AfterAttempts(dir, attempts), next) && MaySurvive(dir, OpsOf(attempts + [next]), left)
    ensures forall verified :: !Safe(left, verified)
  {
    hide AreAttempts, StartsSettled, RemovalPending, AfterAttempts, After, IsRun, MaySurvive, Safe, NoFsync;
    var r, synced, pending := PendingRemoval(dir, attempts);
    var d := r + "x";
    var work := SwappingRun(AfterAttempts(dir, attempts), d);
    next := Attempt([Verified, Sealed(d)], work + [Up(SetCorpus(d))]);
    MorePending(After(dir, synced), pending, work, r);
    var us := OldMarkerOverNewCorpus(After(dir, synced), pending + work, r, d);
    left := ApplyAll(After(dir, synced), us);
    assert (attempts + [next])[..|attempts|] == attempts;
    var all := pending + work + [Up(SetCorpus(d))];
    assert OpsOf(attempts + [next]) == synced + pending + next.ops == synced + all;
    Survives(dir, OpsOf(attempts + [next]), synced, all, us, left);
    MismatchedIsUnsafe(left, r, d);
  }

  lemma RemovedAfter(dir: Dir, stage: seq<Op>, cleanup: seq<Op>)
    requires IsStaging(stage) && IsStaging(cleanup)
    ensures After(dir, stage + [Up(DropReport)] + cleanup).report == None
  {
    AfterOne(dir, stage, Up(DropReport));
    AfterConcat(dir, stage + [Up(DropReport)], cleanup);
    StagingKeeps(After(dir, stage + [Up(DropReport)]), cleanup);
  }

  lemma Survives(dir: Dir, ops: seq<Op>, synced: seq<Op>, pending: seq<Op>, us: seq<Update>, left: Dir)
    requires ops == synced + pending && EndsSynced(synced) && NoFsync(pending)
    requires multiset(us) <= multiset(UpdatesOf(pending)) && left == ApplyAll(After(dir, synced), us)
    ensures MaySurvive(dir, ops, left)
  {
  }

  lemma MismatchedIsUnsafe(left: Dir, r: Digest, d: Digest)
    requires left.report == Some(r) && left.corpus == Whole(d) && r != d
    ensures forall verified :: !Safe(left, verified)
  {
  }

  /** Exactly when a further run is safe against power loss, wherever it is cut: when it does not
      start while a removal of the marker is pending. */
  lemma NextRunSurvivesPowerLossIffSettled(dir: Dir, attempts: seq<Attempt>, verified: set<Digest>)
    requires AreAttempts(dir, attempts) && StartsSettled(attempts) && Safe(dir, verified)
    ensures (forall next :: IsAttempt(AfterAttempts(dir, attempts), next) ==>
               PowerSafe(dir, OpsOf(attempts + [next]), verified + SealedBy(attempts + [next])))
            <==> !RemovalPending(OpsOf(attempts))
  {
    hide IsRun, IsRejectedRun, Safe, MaySurvive, After;
    if RemovalPending(OpsOf(attempts)) {
      var next, left := PendingRemovalIsUnsafe(dir, attempts);
      assert !PowerSafe(dir, OpsOf(attempts + [next]), verified + SealedBy(attempts + [next]));
    } else {
      forall next | IsAttempt(AfterAttempts(dir, attempts), next)
        ensures PowerSafe(dir, OpsOf(attempts + [next]), verified + SealedBy(attempts + [next]))
      {
        SettledLonger(dir, attempts, next);
        hide *;
        SettledStartsSurvivePowerLoss(dir, attempts + [next], verified);
      }
    }
  }

  lemma SettledLonger(dir: Dir, attempts: seq<Attempt>, next: Attempt)
    requires AreAttempts(dir, attempts) && StartsSettled(attempts) && !RemovalPending(OpsOf(attempts))
    requires IsAttempt(AfterAttempts(dir, attempts), next)
    ensures AreAttempts(dir, attempts + [next]) && StartsSettled(attempts + [next])
  {
    var longer := attempts + [next];
    assert longer[..|attempts|] == attempts;
    forall n | 0 <= n < |longer| ensures !RemovalPending(OpsOf(longer[..n])) {
      if n < |attempts| {
        assert longer[..n] == attempts[..n];
      }
    }
  }

  /** The smallest case. Run 1 is cut between removing marker "a" and its fsync. Run 2 replaces the
      stale stage by its own, sees no marker, so it syncs nothing, deletes the old corpus and swaps
      "b" in. Power loss keeps the swap only. */
  lemma TwoCutRunsCanBeUnsafe() returns (left: Dir)
    ensures var dir, s1, s2 := Dir(Some("a"), Whole("a"), {}), Entry(".staging-1", true), Entry(".staging-2", true);
      var first := [Up(AddEntry(s1)), Up(DropReport)];
      var second := [Up(DropEntry(s1)), Up(AddEntry(s2)), Up(DamageCorpus), Up(DropCorpus), Up(SetCorpus("b"))];
      var sealed := [Verified, Sealed("b")];
      var attempts := [Attempt(sealed, first), Attempt(sealed, second)];
      AreAttempts(dir, attempts) && MaySurvive(dir, OpsOf(attempts), left)
    ensures left.report == Some("a") && left.corpus == Whole("b")
  {
    var dir, s1, s2 := Dir(Some("a"), Whole("a"), {}), Entry(".staging-1", true), Entry(".staging-2", true);
    var first, stage, clear := [Up(AddEntry(s1)), Up(DropReport)], [Up(DropEntry(s1)), Up(AddEntry(s2))], [Up(DamageCorpus), Up(DropCorpus)];
    var sealed, swap := [Verified, Sealed("b")], [Up(SetCorpus("b"))];
    FirstCutIsRun(dir, "b", s1);
    var middle := Dir(None, Whole("a"), {s1});
    TwoApplied(dir, Up(AddEntry(s1)), Up(DropReport));
    TwoApplied(middle, Up(DropEntry(s1)), Up(AddEntry(s2)));
    assert {s1} - {s1} + {s2} == {s2};
    TwoApplied(Dir(None, Whole("a"), {s2}), Up(DamageCorpus), Up(DropCorpus));
    AfterConcat(middle, stage, clear);
    SwapStops(middle, "b", s2, stage, clear);
    TwoAttempts(dir, middle, Attempt(sealed, first), Attempt(sealed, stage + clear + swap));
    assert MayReturn(dir, first, "a") && NoFsync(stage + clear);
    NothingDone(dir);
    assert stage + clear + swap
        == [Up(DropEntry(s1)), Up(AddEntry(s2)), Up(DamageCorpus), Up(DropCorpus), Up(SetCorpus("b"))];
    hide *;
    MorePending(dir, first, stage + clear, "a");
    var us := OldMarkerOverNewCorpus(dir, first + (stage + clear), "a", "b");
    left := ApplyAll(dir, us);
    NothingSynced();
    var all := first + (stage + clear) + swap;
    assert [] + all == all == first + (stage + clear + swap);
    Survives(dir, all, [], all, us, left);
  }

  lemma TwoApplied(dir: Dir, a: Op, b: Op)
    ensures After(dir, [a, b]) == Effect(Effect(dir, a), b)
  {
    NothingDone(dir);
    AfterOne(dir, [], a);
    AfterOne(dir, [] + [a], b);
    assert [] + [a] + [b] == [a, b];
  }

  lemma NothingSynced()
    ensures EndsSynced([])
  {
  }

  lemma OneUpdate(dir: Dir, u: Update)
    ensures ApplyAll(dir, [u]) == Apply(dir, u)
  {
    assert [u][..0] == [];
  }

  lemma TwoAttempts(dir: Dir, middle: Dir, first: Attempt, second: Attempt)
    requires IsAttempt(dir, first) && middle == After(dir, first.ops) && IsAttempt(middle, second)
    ensures AreAttempts(dir, [first, second]) && OpsOf([first, second]) == first.ops + second.ops
  {
    hide After, IsRun, IsRejectedRun;
    assert [first, second][..1] == [first] && [first][..0] == [];
    assert AreAttempts(dir, []) && AfterAttempts(dir, []) == dir && OpsOf([]) == [];
    assert AreAttempts(dir, [first]) && AfterAttempts(dir, [first]) == middle;
    assert OpsOf([first]) == [] + first.ops;
  }

  lemma FirstCutIsRun(dir: Dir, d: Digest, e: Entry)
    requires dir.report.Some? && IsStage(e)
    ensures IsRun(dir, d, [Up(AddEntry(e)), Up(DropReport)])
  {
    var stage := [Up(AddEntry(e))];
    NothingStaged();
    assert Publishing(dir, d, [], [])[..1] == [Up(DropReport)];
    assert stage + [Up(DropReport)] + [] == [Up(AddEntry(e)), Up(DropReport)];
    assert StopsAfter(dir, d, [Up(AddEntry(e)), Up(DropReport)], e, stage, [], [], 1, []);
  }
}
