/** Optimal full-domain generalization: one level per column, chosen over the whole lattice. */
module GlobalRecoding {
  import opened Results
  import opened EquivalenceClasses
  import opened Hierarchies
  import LocalRecoding

  // ---------- The lattice of level vectors ----------

  function WithFirst(n: nat, tails: seq<Levels>): seq<Levels> {
    (if n == 0 then [] else WithFirst(n - 1, tails)) + seq(|tails|, i requires 0 <= i < |tails| => [n] + tails[i])
  }

  /** All vectors with entries 0..depth, the first column varying slowest. */
  function Lattice(depths: Levels): seq<Levels> {
    if depths == [] then [[]] else WithFirst(depths[0], Lattice(depths[1..]))
  }

  ghost predicate Below(levels: Levels, depths: Levels) {
    |levels| == |depths| && forall j :: 0 <= j < |levels| ==> levels[j] <= depths[j]
  }

  lemma {:induction false} InWithFirst(n: nat, tails: seq<Levels>, v: Levels)
    ensures v in WithFirst(n, tails) <==> v != [] && v[0] <= n && v[1..] in tails
  {
    var last := seq(|tails|, i requires 0 <= i < |tails| => [n] + tails[i]);
    if n > 0 {
      InWithFirst(n - 1, tails, v);
    }
    if v in last {
      var i :| 0 <= i < |last| && last[i] == v;
      assert v[1..] == tails[i];
    }
    if v != [] && v[0] == n && v[1..] in tails {
      var i :| 0 <= i < |tails| && tails[i] == v[1..];
      assert last[i] == [v[0]] + v[1..] == v;
    }
  }

  lemma {:induction false} InLattice(depths: Levels, v: Levels)
    ensures v in Lattice(depths) <==> Below(v, depths)
    decreases |depths|
  {
    if depths != [] {
      InWithFirst(depths[0], Lattice(depths[1..]), v);
      if v != [] {
        InLattice(depths[1..], v[1..]);
        if Below(v[1..], depths[1..]) && v[0] <= depths[0] {
          forall j | 0 <= j < |v| ensures v[j] <= depths[j] {
            if j > 0 {
              assert v[1..][j - 1] <= depths[1..][j - 1];
            }
          }
        }
      }
    }
  }

  // ---------- One candidate ----------

  function UniformKeys(t: Task, levels: Levels): (keys: seq<Key>)
    requires t.Valid() && t.LevelsOk(levels)
    ensures |keys| == |t.rows|
  {
    seq(|t.rows|, i requires 0 <= i < |t.rows| => t.KeyOf(i, levels))
  }

  /** Of the first `n` records, those whose class is large enough, generalized. */
  function Kept(t: Task, levels: Levels, n: nat): (kept: seq<Row>)
    requires t.Valid() && t.LevelsOk(levels) && n <= |t.rows|
    ensures |kept| <= n
    ensures HasColumns(kept, t.columns)
  {
    if n == 0 then []
    else
      var front := Kept(t, levels, n - 1);
      t.ItemHasColumns(n - 1, levels);
      if IsSafe(UniformKeys(t, levels), t.k, n - 1) then front + [t.Item(n - 1, levels)] else front
  }

  function Suppressed(t: Task, levels: Levels): nat
    requires t.Valid() && t.LevelsOk(levels)
  {
    |t.rows| - |Kept(t, levels, |t.rows|)|
  }

  /** Keeps a row, and suppresses no larger a share of the records than allowed. */
  predicate Admissible(t: Task, levels: Levels, maximum: real)
    requires t.Valid() && t.LevelsOk(levels) && t.rows != []
  {
    Kept(t, levels, |t.rows|) != [] && (Suppressed(t, levels) as real) / (|t.rows| as real) <= maximum
  }

  predicate LexLess(a: Levels, b: Levels) {
    b != [] && (a == [] || a[0] < b[0] || (a[0] == b[0] && LexLess(a[1..], b[1..])))
  }

  /** Fewer suppressed records, then less generalization, then the lexicographically least. */
  predicate Better(t: Task, a: Levels, b: Levels)
    requires t.Valid() && t.LevelsOk(a) && t.LevelsOk(b)
  {
    || Suppressed(t, a) < Suppressed(t, b)
    || (Suppressed(t, a) == Suppressed(t, b) && (
          || LocalRecoding.SumOf(a) < LocalRecoding.SumOf(b)
          || (LocalRecoding.SumOf(a) == LocalRecoding.SumOf(b) && LexLess(a, b))))
  }

  lemma LexLessTransitive(a: Levels, b: Levels, c: Levels)
    requires LexLess(a, b) && LexLess(b, c)
    ensures LexLess(a, c)
  {
  }

  lemma LexLessTotal(a: Levels, b: Levels)
    ensures LexLess(a, b) || a == b || LexLess(b, a)
  {
    if a != [] && b != [] && a[0] == b[0] {
      LexLessTotal(a[1..], b[1..]);
      assert a == [a[0]] + a[1..] && b == [b[0]] + b[1..];
    }
  }

  lemma BetterTransitive(t: Task, a: Levels, b: Levels, c: Levels)
    requires t.Valid() && t.LevelsOk(a) && t.LevelsOk(b) && t.LevelsOk(c)
    requires Better(t, a, b) && Better(t, b, c)
    ensures Better(t, a, c)
  {
    hide Suppressed, LocalRecoding.SumOf, LexLess;
    if LexLess(a, b) && LexLess(b, c) {
      LexLessTransitive(a, b, c);
    }
  }

  // ---------- The search ----------

  ghost predicate IsOptimal(t: Task, levels: Levels, maximum: real)
    requires t.Valid() && t.rows != []
  {
    && t.LevelsOk(levels) && Admissible(t, levels, maximum)
    && forall v :: t.LevelsOk(v) && Admissible(t, v, maximum) && v != levels ==> Better(t, levels, v)
  }

  /** Scans the lattice for the best admissible vector. */
  method Search(t: Task, maximum: real) returns (best: Option<Levels>)
    requires t.Valid() && t.rows != []
    ensures best.Some? ==> IsOptimal(t, best.value, maximum)
    ensures best.None? ==> forall v :: t.LevelsOk(v) ==> !Admissible(t, v, maximum)
  {
    hide Suppressed, LocalRecoding.SumOf, LexLess, Better, Admissible;
    var lattice := Lattice(t.depths);
    forall v ensures v in lattice <==> t.LevelsOk(v) {
      InLattice(t.depths, v);
    }
    best := None;
    for n := 0 to |lattice|
      invariant best.None? ==> forall v :: v in lattice[..n] ==> !Admissible(t, v, maximum)
      invariant best.Some? ==> t.LevelsOk(best.value) && Admissible(t, best.value, maximum)
      invariant best.Some? ==>
        forall v :: v in lattice[..n] && Admissible(t, v, maximum) && v != best.value ==> Better(t, best.value, v)
    {
      var levels := lattice[n];
      assert levels in lattice;
      assert lattice[..n + 1] == lattice[..n] + [levels];
      if Admissible(t, levels, maximum) {
        if best.None? || Better(t, levels, best.value) {
          if best.Some? {
            Improve(t, levels, best.value, lattice[..n], maximum);
          }
          best := Some(levels);
        } else {
          BetterTotal(t, levels, best.value);
        }
      }
    }
    assert lattice[..|lattice|] == lattice;
  }

  lemma BetterTotal(t: Task, a: Levels, b: Levels)
    requires t.Valid() && t.LevelsOk(a) && t.LevelsOk(b)
    ensures Better(t, a, b) || a == b || Better(t, b, a)
  {
    hide Suppressed, LocalRecoding.SumOf, LexLess;
    LexLessTotal(a, b);
  }

  lemma Improve(t: Task, better: Levels, best: Levels, seen: seq<Levels>, maximum: real)
    requires t.Valid() && t.rows != [] && t.LevelsOk(better) && t.LevelsOk(best) && Better(t, better, best)
    requires forall v :: v in seen ==> t.LevelsOk(v)
    requires forall v :: v in seen && Admissible(t, v, maximum) && v != best ==> Better(t, best, v)
    ensures forall v :: v in seen && Admissible(t, v, maximum) ==> Better(t, better, v)
  {
    hide Better, Admissible;
    forall v | v in seen && Admissible(t, v, maximum) ensures Better(t, better, v) {
      if v != best {
        BetterTransitive(t, better, best, v);
      }
    }
  }

  ghost predicate FirstLess(a: Levels, b: Levels, j: nat) {
    j < |a| == |b| && a[j] < b[j] && forall i :: 0 <= i < j ==> a[i] == b[i]
  }

  lemma {:induction false} LexLessSpelled(a: Levels, b: Levels) returns (j: nat)
    requires |a| == |b| && LexLess(a, b)
    ensures FirstLess(a, b, j)
  {
    j := 0;
    if a[0] == b[0] {
      j := LexLessSpelled(a[1..], b[1..]);
      assert forall i :: 0 < i < |a| ==> a[i] == a[1..][i - 1] && b[i] == b[1..][i - 1];
      j := j + 1;
    }
  }

  /** Any other admissible vector suppresses more rows, or as many at a higher sum of levels, or as many
      at the same sum and is higher at the first level where they differ. */
  lemma OptimalSpelled(t: Task, levels: Levels, maximum: real, v: Levels)
    requires t.Valid() && t.rows != [] && IsOptimal(t, levels, maximum) && t.LevelsOk(v) && v != levels
    requires Kept(t, v, |t.rows|) != []
    requires (|t.rows| as real - |Kept(t, v, |t.rows|)| as real) <= maximum * (|t.rows| as real)
    ensures var kept, kept' := |Kept(t, levels, |t.rows|)|, |Kept(t, v, |t.rows|)|;
      var sum, sum' := LocalRecoding.SumOf(levels), LocalRecoding.SumOf(v);
      kept > kept' || (kept == kept' && (sum < sum' || (sum == sum' && exists j: nat :: FirstLess(levels, v, j))))
  {
    hide Admissible, Better, Kept, Task.Valid, LocalRecoding.SumOf;
    AdmissibleSpelled(t, v, maximum);
    BetterSpelled(t, levels, v);
  }

  lemma FractionBound(m: nat, n: nat, maximum: real)
    requires n > 0
    ensures (m as real) / (n as real) <= maximum <==> m as real <= maximum * (n as real)
  {
    var q := (m as real) / (n as real);
    assert q * (n as real) == m as real;
    if q > maximum {
      assert q * (n as real) > maximum * (n as real);
    }
  }

  lemma AdmissibleSpelled(t: Task, v: Levels, maximum: real)
    requires t.Valid() && t.LevelsOk(v) && t.rows != []
    ensures Admissible(t, v, maximum) <==>
      && Kept(t, v, |t.rows|) != []
      && (|t.rows| as real - |Kept(t, v, |t.rows|)| as real) <= maximum * (|t.rows| as real)
  {
    hide Kept, Task.Valid;
    var n, dropped := |t.rows|, Suppressed(t, v);
    assert (dropped as real) / (n as real) <= maximum <==> dropped as real <= maximum * (n as real) by {
      hide *;
      FractionBound(dropped, n, maximum);
    }
  }

  lemma BetterSpelled(t: Task, a: Levels, b: Levels)
    requires t.Valid() && t.LevelsOk(a) && t.LevelsOk(b)
    ensures Better(t, a, b) ==>
      var kept, kept' := |Kept(t, a, |t.rows|)|, |Kept(t, b, |t.rows|)|;
      var sum, sum' := LocalRecoding.SumOf(a), LocalRecoding.SumOf(b);
      kept > kept' || (kept == kept' && (sum < sum' || (sum == sum' && exists j: nat :: FirstLess(a, b, j))))
  {
    hide Kept, Task.Valid, LexLess, LocalRecoding.SumOf;
    if LexLess(a, b) {
      var j := LexLessSpelled(a, b);
    }
  }

  ghost predicate NoneAdmissible(t: Task, maximum: real)
    requires t.Valid() && t.rows != []
  {
    forall v :: t.LevelsOk(v) ==> !Admissible(t, v, maximum)
  }

  /** The source table at one level vector, row by row. */
  ghost predicate AllGeneralized(table: Table, columns: seq<string>, hierarchies: map<string, Hierarchy>, levels: Levels,
                                 all: seq<Row>) {
    && |all| == |table.rows| && HasColumns(all, columns)
    && forall i :: 0 <= i < |all| ==> IsGeneralization(columns, hierarchies, levels, table.rows[i], all[i])
  }

  /** `rows` are, in order, those records that share their quasi-identifiers with at least `k`. */
  ghost predicate IsRestriction(all: seq<Row>, columns: seq<string>, k: nat, rows: seq<Row>, at: seq<nat>)
    requires HasColumns(all, columns)
  {
    && |at| == |rows| && (forall m :: 0 <= m < |at| ==> at[m] < |all| && rows[m] == all[at[m]])
    && (forall m, n :: 0 <= m < n < |at| ==> at[m] < at[n])
    && (forall i: nat :: i < |all| ==> (i in at <==> k <= |Sharing(all, columns, i)|))
  }

  /** What is released: the table at the chosen levels without its small classes. */
  ghost predicate IsRelease(table: Table, columns: seq<string>, hierarchies: map<string, Hierarchy>, k: nat, maximum: real,
                            levels: Levels, rows: seq<Row>) {
    && rows != [] && (|table.rows| as real - |rows| as real) <= maximum * (|table.rows| as real)
    && exists all, at ::
         AllGeneralized(table, columns, hierarchies, levels, all) && IsRestriction(all, columns, k, rows, at)
  }

  lemma {:induction false} KeptAt(t: Task, levels: Levels, n: nat) returns (at: seq<nat>)
    requires t.Valid() && t.LevelsOk(levels) && n <= |t.rows|
    ensures var rows := Kept(t, levels, n);
      && |at| == |rows| && (forall m :: 0 <= m < |at| ==> at[m] < n && rows[m] == t.Item(at[m], levels))
      && (forall m, o :: 0 <= m < o < |at| ==> at[m] < at[o])
      && (forall i: nat :: i < n ==> (i in at <==> IsSafe(UniformKeys(t, levels), t.k, i)))
  {
    hide IsSafe, UniformKeys;
    at := [];
    if n > 0 {
      at := KeptAt(t, levels, n - 1);
      if IsSafe(UniformKeys(t, levels), t.k, n - 1) {
        at := at + [n - 1];
      }
    }
  }

  lemma ItemTuples(t: Task, levels: Levels, all: seq<Row>)
    requires t.Valid() && t.LevelsOk(levels) && |all| == |t.rows| && HasColumns(all, t.columns)
    requires forall i :: 0 <= i < |all| ==> all[i] == t.Item(i, levels)
    ensures Tuples(all, t.columns) == UniformKeys(t, levels)
  {
    forall i | 0 <= i < |all| ensures Tuples(all, t.columns)[i] == UniformKeys(t, levels)[i] {
      assert |t.KeyOf(i, levels)| == |t.columns|;
    }
  }

  lemma ItemsAreGeneralized(t: Task, levels: Levels) returns (all: seq<Row>)
    requires t.Valid() && t.LevelsOk(levels) && DistinctColumns(t.columns)
    ensures |all| == |t.rows| && (forall i :: 0 <= i < |all| ==> all[i] == t.Item(i, levels)) && HasColumns(all, t.columns)
    ensures forall i :: 0 <= i < |all| ==> IsGeneralization(t.columns, t.hierarchies, levels, t.rows[i], all[i])
  {
    all := seq(|t.rows|, i requires 0 <= i < |t.rows| => t.Item(i, levels));
    hide IsGeneralization, Task.Item, Task.Valid;
    forall i | 0 <= i < |t.rows|
      ensures IsGeneralization(t.columns, t.hierarchies, levels, t.rows[i], all[i])
      ensures forall j :: 0 <= j < |t.columns| ==> t.columns[j] in all[i]
    {
      ItemIsGeneralization(t, i, levels);
      t.ItemHasColumns(i, levels);
    }
  }

  lemma KeptRestricts(t: Task, levels: Levels, all: seq<Row>) returns (at: seq<nat>)
    requires t.Valid() && t.LevelsOk(levels) && |all| == |t.rows| && HasColumns(all, t.columns)
    requires forall i :: 0 <= i < |all| ==> all[i] == t.Item(i, levels)
    ensures IsRestriction(all, t.columns, t.k, Kept(t, levels, |t.rows|), at)
  {
    at := KeptAt(t, levels, |t.rows|);
    hide Kept, Task.Item, Task.Valid, Sharing, HasColumns;
    ItemTuples(t, levels, all);
    forall i: nat | i < |all| ensures i in at <==> t.k <= |Sharing(all, t.columns, i)| {
      SharingIsClass(all, t.columns, i);
    }
  }

  lemma KeptIsRelease(t: Task, table: Table, columns: seq<string>, hierarchies: map<string, Hierarchy>, k: nat, maximum: real,
                      levels: Levels)
    requires IsTaskOf(t, table, columns, hierarchies, k) && LocalRecoding.NonEmptyUnique(columns)
    requires t.LevelsOk(levels) && Admissible(t, levels, maximum)
    ensures IsRelease(table, columns, hierarchies, k, maximum, levels, Kept(t, levels, |t.rows|))
  {
    hide IsGeneralization, Task.Item, Task.Valid, IsRestriction, IsRelease, HasColumns, UniformKeys;
    var n := |t.rows|;
    AdmissibleSpelled(t, levels, maximum);
    var all := ItemsAreGeneralized(t, levels);
    var at := KeptRestricts(t, levels, all);
    ReleaseOf(table, columns, hierarchies, k, maximum, levels, Kept(t, levels, n), all, at);
  }

  lemma ReleaseOf(table: Table, columns: seq<string>, hierarchies: map<string, Hierarchy>, k: nat, maximum: real,
                  levels: Levels, rows: seq<Row>, all: seq<Row>, at: seq<nat>)
    requires rows != [] && (|table.rows| as real - |rows| as real) <= maximum * (|table.rows| as real)
    requires AllGeneralized(table, columns, hierarchies, levels, all) && IsRestriction(all, columns, k, rows, at)
    ensures IsRelease(table, columns, hierarchies, k, maximum, levels, rows)
  {
    hide AllGeneralized, IsRestriction;
  }

  /** Releases the optimal selection; every way to fail has its own error and its own cause. */
  method GeneralizeWithHierarchies(table: Table, columns: seq<string>, sensitive: string,
                                   hierarchies: map<string, Hierarchy>, k: nat, maximum: real)
    returns (r: Result<(Levels, seq<Row>), RecodingError>)
    requires table.Valid()
    ensures k < 2 || !(0.0 <= maximum <= 1.0) ==> r == Err(InvalidBounds)
    ensures k >= 2 && 0.0 <= maximum <= 1.0 ==>
      match InputRefusal(table, columns, sensitive, hierarchies)
      case Some(e) => r == Err(e)
      case None =>
        exists t :: IsTaskOf(t, table, columns, hierarchies, k)
          && (NoneAdmissible(t, maximum) ==> r == Err(NotSatisfiable))
          && (!NoneAdmissible(t, maximum) && !LocalRecoding.NonEmptyUnique(columns) ==> r == Err(AuditRefused))
          && (!NoneAdmissible(t, maximum) && LocalRecoding.NonEmptyUnique(columns) ==>
                r.Ok? && IsOptimal(t, r.value.0, maximum) && r.value.1 == Kept(t, r.value.0, |t.rows|))
    ensures r.Ok? ==> IsRelease(table, columns, hierarchies, k, maximum, r.value.0, r.value.1)
    ensures r.Ok? ==> 2 <= k && 0.0 <= maximum <= 1.0 && columns != [] && sensitive in table.fields
    ensures r.Err? && r.error != InvalidBounds ==> InputBlamed(r.error, table, columns, sensitive, hierarchies, k)
  {
    hide Task.Valid, Task.LevelsOk, Kept, Admissible, Better, IsRelease, UniformKeys;
    if k < 2 || !(0.0 <= maximum <= 1.0) {
      return Err(InvalidBounds);
    }
    var prepared := Prepare(table, columns, sensitive, hierarchies, k);
    if prepared.Err? {
      return Err(prepared.error);
    }
    var t := prepared.value;
    var best := Search(t, maximum);
    if best.None? {
      return Err(NotSatisfiable);
    }
    if !LocalRecoding.NonEmptyUnique(columns) {
      return Err(AuditRefused);
    }
    KeptIsRelease(t, table, columns, hierarchies, k, maximum, best.value);
    return Ok((best.value, Kept(t, best.value, |t.rows|)));
  }

  // ---------- Suppression removes whole classes ----------

  /** Restricted to the kept rows a large class keeps its size, and a small one disappears. */
  lemma {:induction false} KeptClasses(t: Task, levels: Levels, n: nat, key: Key)
    requires t.Valid() && t.LevelsOk(levels) && n <= |t.rows|
    ensures ClassSize(Tuples(Kept(t, levels, n), t.columns), key)
         == if ClassSize(UniformKeys(t, levels), key) >= t.k then ClassSize(UniformKeys(t, levels)[..n], key) else 0
  {
    hide Kept, UniformKeys, Tuples, ClassSize;
    ClassSizeSmall(key);
    var keys := UniformKeys(t, levels);
    if n == 0 {
      assert keys[..0] == [];
    } else {
      KeptClasses(t, levels, n - 1, key);
      KeptTuples(t, levels, n);
      assert keys[..n] == keys[..n - 1] + [keys[n - 1]];
      ClassSizeConcat(keys[..n - 1], [keys[n - 1]], key);
      ClassSizeConcat(Tuples(Kept(t, levels, n - 1), t.columns), [keys[n - 1]], key);
      assert Tuples(Kept(t, levels, n - 1), t.columns) + [] == Tuples(Kept(t, levels, n - 1), t.columns);
    }
  }

  lemma KeptTuples(t: Task, levels: Levels, n: nat)
    requires t.Valid() && t.LevelsOk(levels) && 0 < n <= |t.rows|
    ensures var keys := UniformKeys(t, levels);
      Tuples(Kept(t, levels, n), t.columns)
      == Tuples(Kept(t, levels, n - 1), t.columns) + if IsSafe(keys, t.k, n - 1) then [keys[n - 1]] else []
  {
    var front, item := Kept(t, levels, n - 1), t.Item(n - 1, levels);
    t.ItemHasColumns(n - 1, levels);
    if IsSafe(UniformKeys(t, levels), t.k, n - 1) {
      TuplesAppend(front, item, t.columns, t.KeyOf(n - 1, levels));
    }
  }

  lemma TuplesAppend(front: seq<Row>, item: Row, columns: seq<string>, key: Key)
    requires HasColumns(front, columns) && forall j :: 0 <= j < |columns| ==> columns[j] in item
    requires |key| == |columns| && forall j :: 0 <= j < |columns| ==> key[j] == item[columns[j]]
    ensures HasColumns(front + [item], columns)
    ensures Tuples(front + [item], columns) == Tuples(front, columns) + [key]
  {
    var all := Tuples(front + [item], columns);
    assert all[|front|] == key;
    forall i | 0 <= i < |front| ensures all[i] == Tuples(front, columns)[i] {
    }
  }

  /** Every released table is k-anonymous: each kept row's class was kept whole. */
  lemma KeptIsKAnonymous(t: Task, levels: Levels)
    requires t.Valid() && t.LevelsOk(levels)
    ensures KAnonymous(Tuples(Kept(t, levels, |t.rows|), t.columns), t.k)
  {
    var kept := Kept(t, levels, |t.rows|);
    var tuples := Tuples(kept, t.columns);
    forall i | 0 <= i < |tuples| ensures IsSafe(tuples, t.k, i) {
      KeptClasses(t, levels, |t.rows|, tuples[i]);
      MemberHasClass(tuples, i);
      assert UniformKeys(t, levels)[..|t.rows|] == UniformKeys(t, levels);
    }
  }

  lemma MemberHasClass(keys: seq<Key>, i: nat)
    requires i < |keys|
    ensures ClassSize(keys, keys[i]) >= 1
  {
    if i < |keys| - 1 {
      MemberHasClass(keys[..|keys| - 1], i);
    }
  }
}
