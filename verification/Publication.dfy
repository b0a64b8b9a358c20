/** Publishing a verified corpus as a crash protocol: the readiness marker never stands over
    anything but the corpus it was sealed for. */
module Publication {
  import opened Results

  type Digest = string

  /** The published corpus directory: its manifest digest, or half-deleted. */
  datatype Corpus = Missing | Whole(digest: Digest) | Damaged

  datatype Entry = Entry(name: string, isDirectory: bool)

  /** The output directory: the readiness marker, the corpus, and all other entries. */
  datatype Dir = Dir(report: Option<Digest>, corpus: Corpus, entries: set<Entry>)

  const TEMPORARY_REPORT := Entry(".report.json.tmp", false)
  const STAGING_PREFIX := ".staging-"

  /** Files and links are not stages, whatever their name. */
  predicate IsStage(e: Entry) {
    e.isDirectory && STAGING_PREFIX <= e.name
  }

  /** One change to the directory's entries, as made by one system call. */
  datatype Update =
    | AddEntry(entry: Entry)
    | DropEntry(entry: Entry)
    | DropReport
    | DamageCorpus
    | DropCorpus
    | SetCorpus(digest: Digest)
    | SetReport(digest: Digest)

  datatype Op = Up(update: Update) | Fsync

  function Apply(dir: Dir, u: Update): Dir {
    match u
    case AddEntry(e) => dir.(entries := dir.entries + {e})
    case DropEntry(e) => dir.(entries := dir.entries - {e})
    case DropReport => dir.(report := None)
    case DamageCorpus => dir.(corpus := Damaged)
    case DropCorpus => dir.(corpus := Missing)
    case SetCorpus(d) => dir.(corpus := Whole(d))
    case SetReport(d) => dir.(report := Some(d), entries := dir.entries - {TEMPORARY_REPORT})
  }

  /** What a process crash leaves behind after some calls: their combined effect. */
  function After(dir: Dir, ops: seq<Op>): Dir {
    if ops == [] then dir else Effect(After(dir, ops[..|ops| - 1]), ops[|ops| - 1])
  }

  function Effect(dir: Dir, op: Op): Dir {
    if op.Up? then Apply(dir, op.update) else dir
  }

  /** Readiness: a marker stands only over the whole corpus whose verified digest it carries. */
  predicate Safe(dir: Dir, verified: set<Digest>) {
    dir.report.Some? ==> dir.corpus == Whole(dir.report.value) && dir.report.value in verified
  }

  // ---------- The calls of one run ----------

  /** Staging work: stages come and go, marker and corpus are not touched. */
  predicate IsStaging(ops: seq<Op>) {
    forall op :: op in ops ==> op.Up? && (op.update.AddEntry? || op.update.DropEntry?) && IsStage(op.update.entry)
  }

  /** The staging work of a run that gets as far as its seal ends with its own stage in place. */
  predicate StagedAs(stage: seq<Op>, e: Entry) {
    IsStage(e) && IsStaging(stage) && stage != [] && stage[|stage| - 1] == Up(AddEntry(e))
  }

  /** Clearing the directory before the swap. */
  predicate IsClearing(ops: seq<Op>) {
    forall op :: op in ops ==> op.Up? && (op.update.DropEntry? || op.update.DamageCorpus? || op.update.DropCorpus?)
  }

  /** Clearing is complete: nothing but the stage is left, the old corpus least of all. */
  ghost predicate Cleared(dir: Dir, stage: seq<Op>, clear: seq<Op>, e: Entry) {
    After(dir, stage + Invalidate(dir) + clear) == Dir(None, Missing, {e})
  }

  function Invalidate(dir: Dir): seq<Op> {
    if dir.report.Some? then [Up(DropReport), Fsync] else []
  }

  function Promote(d: Digest): seq<Op> {
    [Up(SetCorpus(d)), Fsync, Up(AddEntry(TEMPORARY_REPORT)), Up(SetReport(d)), Fsync]
  }

  /** What follows the seal of a run that gets through: invalidation, clearing, promotion of the
      sealed digest, removal of the stage. */
  function Publishing(dir: Dir, d: Digest, clear: seq<Op>, last: seq<Op>): seq<Op> {
    Invalidate(dir) + clear + Promote(d) + last
  }

  /** A run that verified and sealed `d` and then stopped anywhere - crash, rejection, error or the
      end - and may still remove its stage. It swaps only once clearing is complete. */
  ghost predicate IsRun(dir: Dir, d: Digest, ops: seq<Op>) {
    exists e, stage, clear, last, n: nat, cleanup :: StopsAfter(dir, d, ops, e, stage, clear, last, n, cleanup)
  }

  ghost predicate StopsAfter(dir: Dir, d: Digest, ops: seq<Op>, e: Entry, stage: seq<Op>, clear: seq<Op>, last: seq<Op>,
                             n: nat, cleanup: seq<Op>) {
    && StagedAs(stage, e) && IsClearing(clear) && IsStaging(last) && IsStaging(cleanup)
    && n <= |Publishing(dir, d, clear, last)|
    && (n > |Invalidate(dir) + clear| ==> Cleared(dir, stage, clear, e))
    && ops == stage + Publishing(dir, d, clear, last)[..n] + cleanup
  }

  /** A run that gets through. */
  ghost predicate IsFullRun(dir: Dir, d: Digest, ops: seq<Op>) {
    exists e, stage, clear, last ::
      StopsAfter(dir, d, ops, e, stage, clear, last, |Publishing(dir, d, clear, last)|, [])
  }

  /** A run that never gets to its seal: staging or verification fails, or it is cut before. */
  predicate IsRejectedRun(ops: seq<Op>) {
    IsStaging(ops)
  }

  /** What a run has done, apart from the directory's entries: a verification that succeeded on the
      staged bytes, the seal taken of them, the marker written for a seal. */
  datatype Event = Verified | Sealed(digest: Digest) | Ready(digest: Digest)

  /** A seal follows a verification, and a marker is written for the seal only. */
  predicate InOrder(events: seq<Event>) {
    && |events| <= 3 && (|events| >= 1 ==> events[0] == Verified) && (|events| >= 2 ==> events[1].Sealed?)
    && (|events| == 3 ==> events[2] == Ready(events[1].digest))
  }

  /** One attempt at publishing: how far it got, and its calls. */
  datatype Attempt = Attempt(events: seq<Event>, ops: seq<Op>) {
    /** The digest it sealed after its verification, if it got that far. */
    function Seal(): Option<Digest> {
      if |events| >= 2 && events[1].Sealed? then Some(events[1].digest) else None
    }
  }

  /** Marker and corpus are touched only by an attempt that got past its seal. */
  ghost predicate IsAttempt(dir: Dir, a: Attempt) {
    InOrder(a.events) && match a.Seal() case None => IsRejectedRun(a.ops) case Some(d) => IsRun(dir, d, a.ops)
  }

  // ---------- The output directory, updated in place ----------

  class OutputRoot {
    var report: Option<Digest>
    var corpus: Corpus
    var entries: set<Entry>
    ghost const start: Dir
    ghost var log: seq<Op>
    ghost var history: seq<Event>

    function Current(): Dir
      reads this
    {
      Dir(report, corpus, entries)
    }

    /** The log records every call since the object was opened on the directory. */
    ghost predicate Valid()
      reads this
    {
      Current() == After(start, log)
    }

    constructor (dir: Dir)
      ensures Valid() && Current() == start == dir && log == [] && history == []
    {
      report, corpus, entries := dir.report, dir.corpus, dir.entries;
      start, log, history := dir, [], [];
    }

    method Do(u: Update)
      requires Valid()
      modifies this
      ensures Valid() && Current() == Apply(old(Current()), u) && log == old(log) + [Up(u)] && history == old(history)
    {
      hide After;
      match u {
        case AddEntry(e) => entries := entries + {e};
        case DropEntry(e) => entries := entries - {e};
        case DropReport => report := None;
        case DamageCorpus => corpus := Damaged;
        case DropCorpus => corpus := Missing;
        case SetCorpus(d) => corpus := Whole(d);
        case SetReport(d) => report, entries := Some(d), entries - {TEMPORARY_REPORT};
      }
      AfterOne(start, log, Up(u));
      log := log + [Up(u)];
    }

    method FsyncDir()
      requires Valid()
      modifies this`log
      ensures Valid() && log == old(log) + [Fsync]
    {
      AfterOne(start, log, Fsync);
      log := log + [Fsync];
    }

    /** Removes every stale staging directory, and nothing else. */
    method CleanStaleStages() returns (ghost ops: seq<Op>)
      requires Valid()
      modifies this
      ensures Valid() && log == old(log) + ops && IsStaging(ops) && history == old(history)
      ensures report == old(report) && corpus == old(corpus)
      ensures entries == set e | e in old(entries) && !(e.isDirectory && ".staging-" <= e.name)
    {
      hide After;
      ops := [];
      var todo := entries;
      while todo != {}
        invariant Valid() && todo <= old(entries) && log == old(log) + ops && IsStaging(ops) && history == old(history)
        invariant report == old(report) && corpus == old(corpus)
        invariant entries == set e | e in old(entries) && (e in todo || !IsStage(e))
      {
        var child :| child in todo;
        todo := todo - {child};
        if IsStage(child) {
          Do(DropEntry(child));
          ops := ops + [Up(DropEntry(child))];
        }
      }
    }

    /** Deletes everything but the stage; deleting the corpus passes through half-deleted states. */
    method Clear(staging: Entry) returns (ghost ops: seq<Op>)
      requires Valid() && report == None
      modifies this
      ensures Valid() && log == old(log) + ops && IsClearing(ops) && history == old(history)
      ensures Current() == Dir(None, Missing, old(entries) * {staging})
      ensures old(corpus) != Missing ==> ops != [] && After(start, old(log) + [ops[0]]).corpus == Damaged
    {
      hide After;
      ops := [];
      if corpus != Missing {
        Do(DamageCorpus);
        assert After(start, old(log) + [Up(DamageCorpus)]).corpus == Damaged;
        Do(DropCorpus);
        ops := [Up(DamageCorpus), Up(DropCorpus)];
      }
      var todo := entries - {staging};
      while todo != {}
        invariant Valid() && todo <= old(entries) - {staging} && log == old(log) + ops && IsClearing(ops) && history == old(history)
        invariant report == None && corpus == Missing
        invariant old(corpus) != Missing ==> ops != [] && ops[0] == Up(DamageCorpus)
        invariant entries == (old(entries) * {staging}) + todo
      {
        var child :| child in todo;
        todo := todo - {child};
        Do(DropEntry(child));
        ops := ops + [Up(DropEntry(child))];
      }
    }

    /** Swaps the staged corpus in and writes the marker last; refuses when the staged bytes are
        no longer the sealed ones. */
    method Publish(staging: Entry, resealed: Digest, sealed: Digest) returns (published: bool, ghost clear: seq<Op>)
      requires Valid() && staging in entries && staging != TEMPORARY_REPORT
      modifies this
      ensures Valid() && (published <==> resealed == sealed) && IsClearing(clear)
      ensures history == old(history) + if published then [Ready(sealed)] else []
      ensures published ==> Current() == Dir(Some(sealed), Whole(sealed), {staging})
      ensures published ==> log == old(log) + Invalidate(old(Current())) + clear + Promote(sealed)
      ensures published ==> After(start, old(log) + Invalidate(old(Current())) + clear) == Dir(None, Missing, {staging})
      ensures !published ==> Current() == old(Current()).(report := None) && log == old(log) + Invalidate(old(Current()))
    {
      hide After;
      clear := [];
      if report.Some? {
        Do(DropReport);
        FsyncDir();
      }
      if resealed != sealed {
        return false, clear;
      }
      clear := Clear(staging);
      assert log == old(log) + Invalidate(old(Current())) + clear && After(start, log) == Dir(None, Missing, {staging});
      Do(SetCorpus(sealed));
      FsyncDir();
      Do(AddEntry(TEMPORARY_REPORT));
      Do(SetReport(sealed));
      FsyncDir();
      history := history + [Ready(sealed)];
      published := true;
    }

    /** One run: `accepted` says whether staging and every check on the staged corpus succeeded,
        `sealed` is the digest taken right after, `resealed` the one found just before the swap.
        What it adds to the history says how far the attempt got: the seal is taken after a
        verification, and a marker is written only for that seal. */
    method Run(staging: Entry, accepted: bool, sealed: Digest, resealed: Digest) returns (ready: bool, ghost ops: seq<Op>)
      requires Valid() && IsStage(staging)
      modifies this
      ensures Valid() && log == old(log) + ops
      ensures ready <==> accepted && resealed == sealed
      ensures ready ==> Current() == Dir(Some(sealed), Whole(sealed), {}) && IsFullRun(old(Current()), sealed, ops)
      ensures !ready ==>
        Current() == Dir(if accepted then None else old(report), old(corpus), set e | e in old(entries) && !IsStage(e))
      ensures history == old(history) + RunEvents(accepted, ready, sealed)
      ensures IsAttempt(old(Current()), Attempt(RunEvents(accepted, ready, sealed), ops))
    {
      hide After, IsRun, IsFullRun, IsStaging, IsClearing, Promote, Invalidate, StopsAfter, StagedAs, IsAttempt,
           InOrder;
      ghost var before, begun, past := Current(), log, history;
      ghost var stale := CleanStaleStages();
      Do(AddEntry(staging));
      ghost var stage := stale + [Up(AddEntry(staging))];
      OneMoreStaging(stale, staging);
      ghost var cleanup := [Up(DropEntry(staging))];
      ready := false;
      if !accepted {
        Do(DropEntry(staging));
        ops := stage + cleanup;
        StagingConcat(stage, cleanup);
        RunIsAttempt(before, accepted, ready, sealed, ops);
        assert past + [] == past && log == begun + ops;
        return;
      }
      history := history + [Verified];
      history := history + [Sealed(sealed)];
      ghost var staged, logged := Current(), log;
      ghost var clear: seq<Op>;
      InvalidateSame(before, staged);
      ready, clear := Publish(staging, resealed, sealed);
      ghost var done := Invalidate(before) + if ready then clear + Promote(sealed) else [];
      assert log == logged + done;
      Do(DropEntry(staging));
      ops := stage + done + cleanup;
      assert log == begun + ops;
      if ready {
        assert logged + Invalidate(before) + clear == begun + (stage + Invalidate(before) + clear);
        AfterConcat(start, begun, stage + Invalidate(before) + clear);
        ReadyRun(before, sealed, staging, stage, clear, cleanup);
      } else {
        StoppedRun(before, sealed, staging, stage, cleanup);
      }
      RunIsAttempt(before, accepted, ready, sealed, ops);
      assert history == past + RunEvents(accepted, ready, sealed);
    }
  }

  function RunEvents(accepted: bool, ready: bool, sealed: Digest): seq<Event> {
    (if accepted then [Verified, Sealed(sealed)] else []) + (if ready then [Ready(sealed)] else [])
  }

  lemma RunIsAttempt(dir: Dir, accepted: bool, ready: bool, sealed: Digest, ops: seq<Op>)
    requires ready ==> accepted
    requires if accepted then IsRun(dir, sealed, ops) else IsRejectedRun(ops)
    ensures IsAttempt(dir, Attempt(RunEvents(accepted, ready, sealed), ops))
  {
    hide IsRun, IsRejectedRun;
  }

  lemma OneMoreStaging(stage: seq<Op>, e: Entry)
    requires IsStaging(stage) && IsStage(e)
    ensures StagedAs(stage + [Up(AddEntry(e))], e) && IsStaging([Up(DropEntry(e))])
    ensures IsStaging(stage + [Up(AddEntry(e))]) && IsClearing([])
  {
  }

  lemma StagingConcat(a: seq<Op>, b: seq<Op>)
    requires IsStaging(a) && IsStaging(b)
    ensures IsRejectedRun(a + b)
  {
  }

  lemma InvalidateSame(a: Dir, b: Dir)
    requires a.report == b.report
    ensures Invalidate(a) == Invalidate(b)
  {
  }

  /** A run that got through, stage removal included. */
  lemma ReadyRun(dir: Dir, d: Digest, e: Entry, stage: seq<Op>, clear: seq<Op>, cleanup: seq<Op>)
    requires StagedAs(stage, e) && IsClearing(clear) && IsStaging(cleanup) && Cleared(dir, stage, clear, e)
    ensures var ops := stage + (Invalidate(dir) + (clear + Promote(d))) + cleanup;
      IsFullRun(dir, d, ops) && IsRun(dir, d, ops)
  {
    hide StagedAs, IsClearing, IsStaging, Cleared, Invalidate, Promote;
    var all := Publishing(dir, d, clear, cleanup);
    NothingStaged();
    assert stage + (Invalidate(dir) + (clear + Promote(d))) + cleanup == stage + all[..|all|] + [];
    assert StopsAfter(dir, d, stage + (Invalidate(dir) + (clear + Promote(d))) + cleanup, e, stage, clear, cleanup, |all|, []);
  }

  lemma NothingStaged()
    ensures IsStaging([]) && IsClearing([])
  {
  }

  /** A run refused at its second seal: the marker is gone and nothing else was touched. */
  lemma StoppedRun(dir: Dir, d: Digest, e: Entry, stage: seq<Op>, cleanup: seq<Op>)
    requires StagedAs(stage, e) && IsStaging(cleanup)
    ensures IsRun(dir, d, stage + (Invalidate(dir) + []) + cleanup)
  {
    hide StagedAs, IsClearing, IsStaging, Cleared, Invalidate, Promote;
    NothingStaged();
    assert Publishing(dir, d, [], [])[..|Invalidate(dir)|] == Invalidate(dir) + [];
    assert StopsAfter(dir, d, stage + (Invalidate(dir) + []) + cleanup, e, stage, [], [], |Invalidate(dir)|, cleanup);
  }

  lemma AfterOne(dir: Dir, ops: seq<Op>, op: Op)
    ensures After(dir, ops + [op]) == Effect(After(dir, ops), op)
  {
    assert (ops + [op])[..|ops|] == ops;
  }

  lemma {:induction false} AfterConcat(dir: Dir, a: seq<Op>, b: seq<Op>)
    ensures After(dir, a + b) == After(After(dir, a), b)
    decreases |b|
  {
    if b == [] {
      assert a + b == a;
    } else {
      var n := |b| - 1;
      AfterConcat(dir, a, b[..n]);
      assert a + b == (a + b[..n]) + [b[n]];
      AfterOne(dir, a + b[..n], b[n]);
    }
  }
}
