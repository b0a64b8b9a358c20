/** Greedy local recoding: only records of unsafe classes are generalized, one column at a time. */
module LocalRecoding {
  import opened Results
  import opened EquivalenceClasses
  import opened Hierarchies

  type Plan = seq<Levels>

  ghost predicate PlanOk(t: Task, plan: Plan) {
    t.Valid() && |plan| == |t.rows| && forall i :: 0 <= i < |plan| ==> t.LevelsOk(plan[i])
  }

  function Keys(t: Task, plan: Plan): (keys: seq<Key>)
    requires PlanOk(t, plan)
    ensures |keys| == |plan|
  {
    seq(|plan|, i requires 0 <= i < |plan| => t.KeyOf(i, plan[i]))
  }

  predicate Unsafe(t: Task, plan: Plan, i: nat)
    requires PlanOk(t, plan) && i < |plan|
  {
    !IsSafe(Keys(t, plan), t.k, i)
  }

  predicate AllSafe(t: Task, plan: Plan)
    requires PlanOk(t, plan)
  {
    KAnonymous(Keys(t, plan), t.k)
  }

  // ---------- One round ----------

  /** Raising column `j` would change some unsafe record. */
  predicate CanRaise(t: Task, plan: Plan, j: nat)
    requires PlanOk(t, plan) && j < |t.columns|
  {
    exists i :: 0 <= i < |plan| && Unsafe(t, plan, i) && plan[i][j] < t.depths[j]
  }

  function RaiseRow(t: Task, levels: Levels, unsafe: bool, j: nat): Levels
    requires t.LevelsOk(levels) && j < |t.columns|
  {
    if unsafe && levels[j] < t.depths[j] then levels[j := levels[j] + 1] else levels
  }

  /** Column `j` of every unsafe record one level up, where the depth allows. */
  function Raise(t: Task, plan: Plan, j: nat): (plan': Plan)
    requires PlanOk(t, plan) && j < |t.columns|
    ensures PlanOk(t, plan')
  {
    seq(|plan|, i requires 0 <= i < |plan| => RaiseRow(t, plan[i], Unsafe(t, plan, i), j))
  }

  function CountUnsafe(t: Task, plan: Plan, n: nat): nat
    requires PlanOk(t, plan) && n <= |plan|
  {
    if n == 0 then 0 else CountUnsafe(t, plan, n - 1) + if Unsafe(t, plan, n - 1) then 1 else 0
  }

  function SumOf(levels: Levels): nat {
    if levels == [] then 0 else SumOf(levels[..|levels| - 1]) + levels[|levels| - 1]
  }

  function TotalOf(plan: Plan): nat {
    if plan == [] then 0 else TotalOf(plan[..|plan| - 1]) + SumOf(plan[|plan| - 1])
  }

  /** Fewer unsafe records, then less generalization, then the earlier column. */
  datatype Cost = Cost(remaining: nat, total: nat, column: nat) {
    predicate Less(o: Cost) {
      || remaining < o.remaining
      || (remaining == o.remaining && (total < o.total || (total == o.total && column < o.column)))
    }
  }

  function CostOf(t: Task, plan: Plan, j: nat): Cost
    requires PlanOk(t, plan) && j < |t.columns|
  {
    var raised := Raise(t, plan, j);
    Cost(CountUnsafe(t, raised, |raised|), TotalOf(raised), j)
  }

  /** The cheapest column among the first `n` that can be raised. */
  function BestColumn(t: Task, plan: Plan, n: nat): (best: Option<nat>)
    requires PlanOk(t, plan) && n <= |t.columns|
    ensures best.Some? ==> best.value < n && CanRaise(t, plan, best.value)
  {
    if n == 0 then None
    else
      var best := BestColumn(t, plan, n - 1);
      if CanRaise(t, plan, n - 1) && (best.None? || CostOf(t, plan, n - 1).Less(CostOf(t, plan, best.value)))
      then Some(n - 1) else best
  }

  /** No other column that can be raised leaves fewer unsafe records, or as many with less
      generalization, or ties with it further left. */
  lemma {:induction false} BestColumnIsCheapest(t: Task, plan: Plan, n: nat, j: nat)
    requires PlanOk(t, plan) && j < n <= |t.columns| && CanRaise(t, plan, j)
    ensures BestColumn(t, plan, n).Some?
    ensures !CostOf(t, plan, j).Less(CostOf(t, plan, BestColumn(t, plan, n).value))
    decreases n
  {
    hide CostOf, CanRaise, PlanOk;
    if j < n - 1 {
      BestColumnIsCheapest(t, plan, n - 1, j);
    }
  }

  // ---------- The loop, as a function ----------

  // ---------- One round, spelled out ----------

  /** The records whose tuple is carried by fewer than `k`. */
  ghost function SmallClasses(t: Task, plan: Plan): set<nat>
    requires PlanOk(t, plan)
  {
    set i: nat | i < |plan| && |Members(Keys(t, plan), Keys(t, plan)[i])| < t.k
  }

  lemma UnsafeIsSmall(t: Task, plan: Plan, i: nat)
    requires PlanOk(t, plan) && i < |plan|
    ensures Unsafe(t, plan, i) <==> i in SmallClasses(t, plan)
  {
    ClassSizeIsCardinality(Keys(t, plan), Keys(t, plan)[i]);
  }

  lemma {:induction false} CountUnsafeIsCardinality(t: Task, plan: Plan, n: nat)
    requires PlanOk(t, plan) && n <= |plan|
    ensures CountUnsafe(t, plan, n) == |set i: nat | i < n && i in SmallClasses(t, plan)|
  {
    hide Unsafe, SmallClasses, PlanOk;
    var small := SmallClasses(t, plan);
    if n == 0 {
      assert (set i: nat | i < n && i in small) == {};
    } else {
      CountUnsafeIsCardinality(t, plan, n - 1);
      UnsafeIsSmall(t, plan, n - 1);
      BelowSnoc(small, n - 1);
    }
  }

  lemma BelowSnoc(small: set<nat>, n: nat)
    ensures |set i: nat | i < n + 1 && i in small| == |set i: nat | i < n && i in small| + if n in small then 1 else 0
  {
    var before, all := set i: nat | i < n && i in small, set i: nat | i < n + 1 && i in small;
    assert all == if n in small then before + {n} else before;
  }

  /** A round raises one column, by one level, for exactly the records in small classes that are not
      at their last level there. */
  lemma RaiseSpelled(t: Task, plan: Plan, j: nat, i: nat, c: nat)
    requires PlanOk(t, plan) && j < |t.columns| && i < |plan| && c < |t.columns|
    ensures Raise(t, plan, j)[i][c]
         == plan[i][c] + if c == j && i in SmallClasses(t, plan) && plan[i][j] < t.depths[j] then 1 else 0
  {
    UnsafeIsSmall(t, plan, i);
    hide SmallClasses, Unsafe;
  }

  lemma {:induction false} TotalsAreSums(a: Levels, b: Levels, x: nat)
    ensures SumOf([]) == 0 && SumOf([x]) == x && SumOf(a + b) == SumOf(a) + SumOf(b)
    decreases |b|
  {
    assert [x][..0] == [];
    if b == [] {
      assert a + b == a;
    } else {
      TotalsAreSums(a, b[..|b| - 1], x);
      assert (a + b)[..|a + b| - 1] == a + b[..|b| - 1];
    }
  }

  lemma {:induction false} PlanTotalsAreSums(p: Plan, q: Plan, levels: Levels)
    ensures TotalOf([]) == 0 && TotalOf([levels]) == SumOf(levels) && TotalOf(p + q) == TotalOf(p) + TotalOf(q)
    decreases |q|
  {
    assert [levels][..0] == [];
    if q == [] {
      assert p + q == p;
    } else {
      PlanTotalsAreSums(p, q[..|q| - 1], levels);
      assert (p + q)[..|p + q| - 1] == p + q[..|q| - 1];
    }
  }

  /** The column of the round: raising any other one leaves more records in small classes, or as many
      at a higher sum of levels, or as many at the same sum and stands further right. */
  lemma BestColumnSpelled(t: Task, plan: Plan, i: nat)
    requires PlanOk(t, plan) && i < |t.columns| && exists r :: r in SmallClasses(t, plan) && plan[r][i] < t.depths[i]
    ensures BestColumn(t, plan, |t.columns|).Some?
    ensures var j := BestColumn(t, plan, |t.columns|).value;
      && (exists r :: r in SmallClasses(t, plan) && plan[r][j] < t.depths[j])
      && var a, b := Raise(t, plan, j), Raise(t, plan, i);
         || i == j
         || |SmallClasses(t, a)| < |SmallClasses(t, b)|
         || (|SmallClasses(t, a)| == |SmallClasses(t, b)| && (TotalOf(a) < TotalOf(b) || (TotalOf(a) == TotalOf(b) && j < i)))
  {
    CanRaiseSpelled(t, plan, i);
    hide CanRaise, SmallClasses, PlanOk, Raise, Unsafe;
    BestColumnIsCheapest(t, plan, |t.columns|, i);
    var j := BestColumn(t, plan, |t.columns|).value;
    CanRaiseSpelled(t, plan, j);
    hide BestColumn;
    CountAllUnsafe(t, Raise(t, plan, j));
    CountAllUnsafe(t, Raise(t, plan, i));
  }

  lemma CanRaiseSpelled(t: Task, plan: Plan, j: nat)
    requires PlanOk(t, plan) && j < |t.columns|
    ensures CanRaise(t, plan, j) <==> exists r :: r in SmallClasses(t, plan) && plan[r][j] < t.depths[j]
  {
    forall i: nat | i < |plan| ensures Unsafe(t, plan, i) <==> i in SmallClasses(t, plan) {
      UnsafeIsSmall(t, plan, i);
    }
    hide Unsafe, PlanOk;
  }

  lemma CountAllUnsafe(t: Task, plan: Plan)
    requires PlanOk(t, plan)
    ensures CountUnsafe(t, plan, |plan|) == |SmallClasses(t, plan)|
  {
    CountUnsafeIsCardinality(t, plan, |plan|);
    assert (set i: nat | i < |plan| && i in SmallClasses(t, plan)) == SmallClasses(t, plan);
  }

  lemma SumRaised(levels: Levels, j: nat)
    requires j < |levels|
    ensures SumOf(levels[j := levels[j] + 1]) == SumOf(levels) + 1
  {
    var n := |levels| - 1;
    var raised := levels[j := levels[j] + 1];
    if j < n {
      SumRaised(levels[..n], j);
      assert raised[..n] == levels[..n][j := levels[j] + 1];
    } else {
      assert raised[..n] == levels[..n];
    }
  }

  lemma SumBounded(levels: Levels, depths: Levels)
    requires |levels| == |depths| && forall j :: 0 <= j < |levels| ==> levels[j] <= depths[j]
    ensures SumOf(levels) <= SumOf(depths)
  {
    if levels != [] {
      SumBounded(levels[..|levels| - 1], depths[..|depths| - 1]);
    }
  }

  lemma {:induction false} TotalGrows(p: Plan, q: Plan)
    requires |p| == |q| && forall i :: 0 <= i < |p| ==> SumOf(p[i]) <= SumOf(q[i])
    ensures TotalOf(p) <= TotalOf(q)
  {
    hide SumOf;
    if p != [] {
      TotalGrows(p[..|p| - 1], q[..|q| - 1]);
    }
  }

  lemma {:induction false} TotalGrowsStrictly(p: Plan, q: Plan, i: nat)
    requires |p| == |q| && forall i :: 0 <= i < |p| ==> SumOf(p[i]) <= SumOf(q[i])
    requires i < |p| && SumOf(p[i]) < SumOf(q[i])
    ensures TotalOf(p) < TotalOf(q)
  {
    hide SumOf;
    var n := |p| - 1;
    if i < n {
      TotalGrowsStrictly(p[..n], q[..n], i);
    } else {
      TotalGrows(p[..n], q[..n]);
    }
  }

  /** No plan spends more than every record at full depth. */
  lemma {:induction false} TotalBounded(plan: Plan, depths: Levels)
    requires forall i :: 0 <= i < |plan| ==> SumOf(plan[i]) <= SumOf(depths)
    ensures TotalOf(plan) <= |plan| * SumOf(depths)
  {
    hide SumOf;
    if plan != [] {
      var n := |plan| - 1;
      TotalBounded(plan[..n], depths);
      assert |plan| * SumOf(depths) == n * SumOf(depths) + SumOf(depths);
    }
  }

  /** A round strictly raises the total level, which the depths bound. */
  lemma RaiseMakesProgress(t: Task, plan: Plan, j: nat)
    requires PlanOk(t, plan) && j < |t.columns| && CanRaise(t, plan, j)
    ensures TotalOf(plan) < TotalOf(Raise(t, plan, j)) <= |plan| * SumOf(t.depths)
  {
    hide Unsafe, SumOf, TotalOf;
    var raised := Raise(t, plan, j);
    forall i | 0 <= i < |plan|
      ensures SumOf(raised[i]) == SumOf(plan[i]) + if Unsafe(t, plan, i) && plan[i][j] < t.depths[j] then 1 else 0
      ensures SumOf(raised[i]) <= SumOf(t.depths)
    {
      SumRaised(plan[i], j);
      SumBounded(raised[i], t.depths);
    }
    var i :| 0 <= i < |plan| && Unsafe(t, plan, i) && plan[i][j] < t.depths[j];
    TotalGrowsStrictly(plan, raised, i);
    TotalBounded(raised, t.depths);
  }

  /** Rounds until every class is safe or no unsafe record can be raised. */
  function Refine(t: Task, plan: Plan): (final: Plan)
    requires PlanOk(t, plan)
    ensures PlanOk(t, final)
    decreases |plan| * SumOf(t.depths) - TotalOf(plan)
  {
    if AllSafe(t, plan) then plan
    else
      match BestColumn(t, plan, |t.columns|)
      case None => plan
      case Some(j) => RaiseMakesProgress(t, plan, j); Refine(t, Raise(t, plan, j))
  }

  // ---------- What it guarantees ----------

  /** A record in a safe class is untouched by a round, and its class keeps all its members. */
  lemma SafeSurvivesRound(t: Task, plan: Plan, i: nat, j: nat)
    requires PlanOk(t, plan) && i < |plan| && j < |t.columns| && !Unsafe(t, plan, i)
    ensures Raise(t, plan, j)[i] == plan[i]
    ensures var key := t.KeyOf(i, plan[i]);
      ClassSize(Keys(t, plan), key) <= ClassSize(Keys(t, Raise(t, plan, j)), key)
    ensures !Unsafe(t, Raise(t, plan, j), i)
  {
    var keys, raised := Keys(t, plan), Raise(t, plan, j);
    var key := keys[i];
    forall m | 0 <= m < |keys| && keys[m] == key ensures Keys(t, raised)[m] == key {
      assert !Unsafe(t, plan, m);
      assert raised[m] == plan[m];
    }
    ClassGrows(keys, Keys(t, raised), key);
  }

  /** Safe records are frozen for good: their levels are final and their class never shrinks. */
  lemma {:induction false} SafeIsFrozen(t: Task, plan: Plan, i: nat)
    requires PlanOk(t, plan) && i < |plan| && !Unsafe(t, plan, i)
    ensures Refine(t, plan)[i] == plan[i]
    ensures var key := t.KeyOf(i, plan[i]);
      ClassSize(Keys(t, plan), key) <= ClassSize(Keys(t, Refine(t, plan)), key)
    decreases |plan| * SumOf(t.depths) - TotalOf(plan)
  {
    if !AllSafe(t, plan) {
      var best := BestColumn(t, plan, |t.columns|);
      if best.Some? {
        RaiseMakesProgress(t, plan, best.value);
        SafeSurvivesRound(t, plan, i, best.value);
        SafeIsFrozen(t, Raise(t, plan, best.value), i);
      }
    }
  }

  /** The loop ends k-anonymous, or with every unsafe record generalized all the way. */
  lemma {:induction false} EndsSafeOrExhausted(t: Task, plan: Plan)
    requires PlanOk(t, plan)
    ensures var final := Refine(t, plan);
      AllSafe(t, final) || forall i :: 0 <= i < |final| && Unsafe(t, final, i) ==> final[i] == t.depths
    decreases |plan| * SumOf(t.depths) - TotalOf(plan)
  {
    if !AllSafe(t, plan) {
      var best := BestColumn(t, plan, |t.columns|);
      if best.Some? {
        RaiseMakesProgress(t, plan, best.value);
        EndsSafeOrExhausted(t, Raise(t, plan, best.value));
      } else {
        forall i | 0 <= i < |plan| && Unsafe(t, plan, i) ensures plan[i] == t.depths {
          forall j | 0 <= j < |t.columns| ensures plan[i][j] == t.depths[j] {
            if CanRaise(t, plan, j) {
              BestColumnIsCheapest(t, plan, |t.columns|, j);
            }
          }
        }
      }
    }
  }

  /** Levels only ever rise. */
  lemma {:induction false} LevelsRise(t: Task, plan: Plan, i: nat, j: nat)
    requires PlanOk(t, plan) && i < |plan| && j < |t.columns|
    ensures plan[i][j] <= Refine(t, plan)[i][j] <= t.depths[j]
    decreases |plan| * SumOf(t.depths) - TotalOf(plan)
  {
    hide Unsafe, AllSafe, CanRaise, BestColumn, SumOf, TotalOf;
    if !AllSafe(t, plan) {
      var best := BestColumn(t, plan, |t.columns|);
      if best.Some? {
        RaiseMakesProgress(t, plan, best.value);
        hide Raise;
        LevelsRise(t, Raise(t, plan, best.value), i, j);
      }
    }
  }

  // ---------- The loop, as run ----------

  function Zeros(t: Task): (plan: Plan)
    requires t.Valid()
    ensures PlanOk(t, plan)
  {
    seq(|t.rows|, i => seq(|t.columns|, j => 0))
  }

  method UnsafeRecords(t: Task, plan: Plan) returns (unsafe: seq<nat>)
    requires PlanOk(t, plan)
    ensures forall i :: i in unsafe <==> 0 <= i < |plan| && Unsafe(t, plan, i)
    ensures forall a, b :: 0 <= a < b < |unsafe| ==> unsafe[a] < unsafe[b]
  {
    unsafe := [];
    for i := 0 to |plan|
      invariant forall m :: m in unsafe <==> 0 <= m < i && Unsafe(t, plan, m)
      invariant forall a, b :: 0 <= a < b < |unsafe| ==> unsafe[a] < unsafe[b]
    {
      if Unsafe(t, plan, i) {
        assert forall a :: 0 <= a < |unsafe| ==> unsafe[a] in unsafe;
        unsafe := unsafe + [i];
      }
    }
  }

  /** Builds the candidate for one column by raising the unsafe records in place. */
  method TryColumn(t: Task, plan: Plan, unsafe: seq<nat>, j: nat) returns (candidate: Option<Plan>)
    requires PlanOk(t, plan) && j < |t.columns|
    requires forall i :: i in unsafe <==> 0 <= i < |plan| && Unsafe(t, plan, i)
    requires forall a, b :: 0 <= a < b < |unsafe| ==> unsafe[a] < unsafe[b]
    ensures candidate == if CanRaise(t, plan, j) then Some(Raise(t, plan, j)) else None
  {
    var raised := plan;
    var changed := false;
    for a := 0 to |unsafe|
      invariant |raised| == |plan|
      invariant forall i :: 0 <= i < |plan| ==> raised[i] == RaiseRow(t, plan[i], i in unsafe[..a], j)
      invariant changed <==> exists i :: 0 <= i < |plan| && i in unsafe[..a] && plan[i][j] < t.depths[j]
    {
      var i := unsafe[a];
      assert i in unsafe && i !in unsafe[..a];
      assert unsafe[..a + 1] == unsafe[..a] + [i];
      if raised[i][j] < t.depths[j] {
        raised := raised[i := raised[i][j := raised[i][j] + 1]];
        changed := true;
      }
    }
    assert unsafe[..|unsafe|] == unsafe;
    if !changed {
      return None;
    }
    assert raised == Raise(t, plan, j);
    return Some(raised);
  }

  method RefineLoop(t: Task) returns (plan: Plan)
    requires t.Valid()
    ensures plan == Refine(t, Zeros(t))
  {
    plan := Zeros(t);
    while true
      invariant PlanOk(t, plan) && Refine(t, plan) == Refine(t, Zeros(t))
      decreases |plan| * SumOf(t.depths) - TotalOf(plan)
    {
      var unsafe := UnsafeRecords(t, plan);
      if unsafe == [] {
        return;
      }
      assert unsafe[0] in unsafe;
      var best := ChooseColumn(t, plan, unsafe);
      if best.None? {
        return;
      }
      RaiseMakesProgress(t, plan, best.value);
      plan := Raise(t, plan, best.value);
    }
  }

  method ChooseColumn(t: Task, plan: Plan, unsafe: seq<nat>) returns (best: Option<nat>)
    requires PlanOk(t, plan)
    requires forall i :: i in unsafe <==> 0 <= i < |plan| && Unsafe(t, plan, i)
    requires forall a, b :: 0 <= a < b < |unsafe| ==> unsafe[a] < unsafe[b]
    ensures best == BestColumn(t, plan, |t.columns|)
  {
    hide CountUnsafe, TotalOf, Unsafe;
    best := None;
    var least := Cost(0, 0, 0);
    for j := 0 to |t.columns|
      invariant best == BestColumn(t, plan, j)
      invariant best.Some? ==> least == CostOf(t, plan, best.value)
    {
      var candidate := TryColumn(t, plan, unsafe, j);
      if candidate.Some? {
        var remaining := CountUnsafe(t, candidate.value, |candidate.value|);
        var cost := Cost(remaining, TotalOf(candidate.value), j);
        if best.None? || cost.Less(least) {
          best, least := Some(j), cost;
        }
      }
    }
  }

  predicate NonEmptyUnique(columns: seq<string>) {
    columns != [] && DistinctColumns(columns)
  }

  function Rows(t: Task, plan: Plan): seq<Row>
    requires PlanOk(t, plan)
  {
    seq(|plan|, i requires 0 <= i < |plan| => t.Item(i, plan[i]))
  }

  ghost predicate GeneralizedSomehow(columns: seq<string>, hierarchies: map<string, Hierarchy>, source: Row, item: Row) {
    exists levels :: IsGeneralization(columns, hierarchies, levels, source, item)
  }

  /** What is released: every record in its place, its quasi-identifiers at some levels and the rest
      unchanged, and every record sharing its quasi-identifiers with `k` records. */
  ghost predicate IsRelease(table: Table, columns: seq<string>, hierarchies: map<string, Hierarchy>, k: nat, rows: seq<Row>) {
    && |rows| == |table.rows| && AllShared(rows, columns, k)
    && forall i :: 0 <= i < |rows| ==> GeneralizedSomehow(columns, hierarchies, table.rows[i], rows[i])
  }

  lemma RowsAreGeneralized(t: Task, plan: Plan)
    requires PlanOk(t, plan) && DistinctColumns(t.columns)
    ensures |Rows(t, plan)| == |t.rows|
    ensures forall i :: 0 <= i < |t.rows| ==>
      GeneralizedSomehow(t.columns, t.hierarchies, t.rows[i], Rows(t, plan)[i])
  {
    hide IsGeneralization, Task.Generalized;
    forall i | 0 <= i < |t.rows|
      ensures GeneralizedSomehow(t.columns, t.hierarchies, t.rows[i], Rows(t, plan)[i])
    {
      ItemIsGeneralization(t, i, plan[i]);
      assert Rows(t, plan)[i] == t.Item(i, plan[i]);
    }
  }

  lemma RowsAreRelease(t: Task, table: Table, columns: seq<string>, hierarchies: map<string, Hierarchy>, k: nat, rows: seq<Row>)
    requires IsTaskOf(t, table, columns, hierarchies, k) && NonEmptyUnique(columns)
    requires AllSafe(t, Refine(t, Zeros(t))) && rows == Rows(t, Refine(t, Zeros(t)))
    ensures IsRelease(table, columns, hierarchies, k, rows)
  {
    ReleasedRowsAreKAnonymous(t);
    RowsAreGeneralized(t, Refine(t, Zeros(t)));
    hide Refine, AllShared, KAnonymous, GeneralizedSomehow, AllSafe, Rows, Zeros, Task.Valid, HasColumns, Tuples, PlanOk;
    KAnonymousIffShared(rows, columns, k);
    forall i | 0 <= i < |rows| ensures GeneralizedSomehow(columns, hierarchies, table.rows[i], rows[i]) {
      assert t.rows[i] == table.rows[i];
    }
  }

  /** The released table: every record of the source, in order, each class of size k or more.
      Refused only for bad inputs, or when the final plan leaves some unsafe record although
      every unsafe record is generalized all the way. */
  method LocallyGeneralize(table: Table, columns: seq<string>, sensitive: string,
                           hierarchies: map<string, Hierarchy>, k: nat) returns (r: Result<seq<Row>, RecodingError>)
    requires table.Valid()
    ensures k < 2 ==> r == Err(InvalidBounds)
    ensures k >= 2 ==>
      match InputRefusal(table, columns, sensitive, hierarchies)
      case Some(e) => r == Err(e)
      case None =>
        exists t :: IsTaskOf(t, table, columns, hierarchies, k)
          && (!AllSafe(t, Refine(t, Zeros(t))) ==> r == Err(NotSatisfiable))
          && (AllSafe(t, Refine(t, Zeros(t))) && !NonEmptyUnique(columns) ==> r == Err(AuditRefused))
          && (AllSafe(t, Refine(t, Zeros(t))) && NonEmptyUnique(columns) ==> r == Ok(Rows(t, Refine(t, Zeros(t)))))
    ensures r.Ok? ==> IsRelease(table, columns, hierarchies, k, r.value)
    ensures r.Ok? ==> 2 <= k && columns != [] && sensitive in table.fields
    ensures r.Err? ==> InputBlamed(r.error, table, columns, sensitive, hierarchies, k)
  {
    if k < 2 {
      return Err(InvalidBounds);
    }
    var prepared := Prepare(table, columns, sensitive, hierarchies, k);
    if prepared.Err? {
      return Err(prepared.error);
    }
    var t := prepared.value;
    var plan := RefineLoop(t);
    if !AllSafe(t, plan) {
      return Err(NotSatisfiable);
    }
    if !NonEmptyUnique(columns) {
      return Err(AuditRefused);
    }
    RowsAreRelease(t, table, columns, hierarchies, k, Rows(t, plan));
    return Ok(Rows(t, plan));
  }

  /** The released rows themselves are k-anonymous, so the recomputation after the transform
      cannot fail. */
  lemma ReleasedRowsAreKAnonymous(t: Task)
    requires t.Valid() && AllSafe(t, Refine(t, Zeros(t)))
    ensures var rows := Rows(t, Refine(t, Zeros(t)));
      && |rows| == |t.rows| && (forall i :: 0 <= i < |rows| ==> rows[i].Keys == t.rows[i].Keys)
      && HasColumns(rows, t.columns) && KAnonymous(Tuples(rows, t.columns), t.k)
  {
    var plan := Refine(t, Zeros(t));
    var rows := Rows(t, plan);
    forall i, j | 0 <= i < |rows| && 0 <= j < |t.columns| ensures t.columns[j] in rows[i] {
      assert t.CellOk(i, j);
    }
    forall i | 0 <= i < |rows| ensures Tuples(rows, t.columns)[i] == Keys(t, plan)[i] {
    }
    assert Tuples(rows, t.columns) == Keys(t, plan);
  }
}
