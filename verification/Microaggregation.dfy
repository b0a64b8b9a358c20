/** Top/bottom coding and fixed-size microaggregation of numeric quasi-identifiers, over reals. */
module Microaggregation {
  import opened Results
  import opened EquivalenceClasses

  /** A record: its numeric columns, in their declared order, and the row they came from. */
  datatype Record = Record(nums: seq<real>, row: Row)

  datatype MicroError =
    | InvalidParameters | NoRecords | MissingColumns | TooFewRecords | NotNumeric | InvalidBounds | BoundUnsatisfied | AuditRefused

  /** Optional lower and upper coding bounds, column by column. */
  type Bounds = map<string, (Option<real>, Option<real>)>

  /** An optional lower and an optional upper coding bound, in order. */
  predicate BoundOk(b: (Option<real>, Option<real>)) {
    b.0.Some? && b.1.Some? ==> b.0.value <= b.1.value
  }

  function Coded(v: real, b: (Option<real>, Option<real>)): real {
    var raised := if b.0.Some? && v < b.0.value then b.0.value else v;
    if b.1.Some? && raised > b.1.value then b.1.value else raised
  }

  predicate WithinBound(v: real, b: (Option<real>, Option<real>)) {
    (b.0.Some? ==> b.0.value <= v) && (b.1.Some? ==> v <= b.1.value)
  }

  lemma CodedWithinBound(v: real, b: (Option<real>, Option<real>))
    requires BoundOk(b)
    ensures WithinBound(Coded(v, b), b)
    ensures WithinBound(v, b) ==> Coded(v, b) == v
  {
  }

  predicate Wide(records: seq<Record>, width: nat) {
    forall i :: 0 <= i < |records| ==> |records[i].nums| == width
  }

  // ---------- Sorting ----------

  predicate LexLeq(a: seq<real>, b: seq<real>) {
    a == [] || (b != [] && (a[0] < b[0] || (a[0] == b[0] && LexLeq(a[1..], b[1..]))))
  }

  ghost predicate FirstSmaller(a: seq<real>, b: seq<real>, k: nat) {
    k < |a| == |b| && a[..k] == b[..k] && a[k] < b[k]
  }

  /** Tuples of numbers compare at the first column where they differ. */
  lemma {:induction false} LexLeqSpelled(a: seq<real>, b: seq<real>)
    requires |a| == |b|
    ensures LexLeq(a, b) <==> a == b || exists k: nat :: FirstSmaller(a, b, k)
  {
    if a != [] {
      LexLeqSpelled(a[1..], b[1..]);
      assert a == [a[0]] + a[1..] && b == [b[0]] + b[1..];
      if k: nat :| FirstSmaller(a[1..], b[1..], k) && a[0] == b[0] {
        assert a[..k + 1] == [a[0]] + a[1..][..k] && b[..k + 1] == [b[0]] + b[1..][..k];
        assert FirstSmaller(a, b, k + 1);
      }
      if k: nat :| FirstSmaller(a, b, k) {
        if k > 0 {
          assert a[..k][0] == b[..k][0] && a[1..][..k - 1] == a[..k][1..] && b[1..][..k - 1] == b[..k][1..];
          assert FirstSmaller(a[1..], b[1..], k - 1);
        }
      }
      if a[0] < b[0] {
        assert FirstSmaller(a, b, 0);
      }
    }
  }

  function Insert(s: seq<Record>, x: Record): (r: seq<Record>)
    ensures multiset(r) == multiset(s) + multiset{x}
  {
    if s == [] then [x]
    else
      var n := |s| - 1;
      assert s == s[..n] + [s[n]];
      if LexLeq(s[n].nums, x.nums) then s + [x] else Insert(s[..n], x) + [s[n]]
  }

  /** The stable sort by numeric tuple. */
  function Sort(s: seq<Record>): (r: seq<Record>)
    ensures multiset(r) == multiset(s)
  {
    if s == [] then []
    else
      var n := |s| - 1;
      assert s == s[..n] + [s[n]];
      Insert(Sort(s[..n]), s[n])
  }

  /** The records with these numbers, in order. */
  ghost function With(s: seq<Record>, nums: seq<real>): seq<Record> {
    if s == [] then [] else With(s[..|s| - 1], nums) + if s[|s| - 1].nums == nums then [s[|s| - 1]] else []
  }

  lemma WithSnoc(s: seq<Record>, x: Record, nums: seq<real>)
    ensures With(s + [x], nums) == With(s, nums) + if x.nums == nums then [x] else []
  {
    assert (s + [x])[..|s|] == s;
  }

  lemma {:induction false} InsertIsStable(s: seq<Record>, x: Record, nums: seq<real>)
    ensures With(Insert(s, x), nums) == With(s + [x], nums)
  {
    hide LexLeq, With;
    if s == [] {
      assert s + [x] == [x];
    } else {
      var n := |s| - 1;
      LexLeqTotal(s[n].nums, x.nums);
      if !LexLeq(s[n].nums, x.nums) {
        InsertIsStable(s[..n], x, nums);
        WithSnoc(Insert(s[..n], x), s[n], nums);
        WithSnoc(s[..n], x, nums);
        WithSnoc(s[..n], s[n], nums);
        WithSnoc(s, x, nums);
        assert s == s[..n] + [s[n]] && s[n].nums != x.nums;
        var before := With(s[..n], nums);
        assert before + [] == before;
      }
    }
  }

  /** Records with equal numbers stay in the order of the input. */
  lemma {:induction false} SortIsStable(s: seq<Record>, nums: seq<real>)
    ensures With(Sort(s), nums) == With(s, nums)
  {
    SortSnoc(s);
    hide *;
    if s != [] {
      var n := |s| - 1;
      var front, sorted := s[..n], Sort(s[..n]);
      SortIsStable(front, nums);
      InsertIsStable(sorted, s[n], nums);
      WithSnoc(sorted, s[n], nums);
      WithSnoc(front, s[n], nums);
      assert s == front + [s[n]];
    }
  }

  lemma SortSnoc(s: seq<Record>)
    ensures Sort(s) == if s == [] then [] else Insert(Sort(s[..|s| - 1]), s[|s| - 1])
  {
  }

  predicate Sorted(s: seq<Record>) {
    forall i, j :: 0 <= i < j < |s| ==> LexLeq(s[i].nums, s[j].nums)
  }

  lemma LexLeqTotal(a: seq<real>, b: seq<real>)
    ensures LexLeq(a, b) || LexLeq(b, a)
  {
  }

  lemma LexLeqTransitive(a: seq<real>, b: seq<real>, c: seq<real>)
    requires LexLeq(a, b) && LexLeq(b, c)
    ensures LexLeq(a, c)
  {
  }

  lemma {:induction false} InsertSorted(s: seq<Record>, x: Record)
    requires Sorted(s)
    ensures Sorted(Insert(s, x))
  {
    hide LexLeq;
    if s != [] {
      var n := |s| - 1;
      LexLeqTotal(s[n].nums, x.nums);
      if LexLeq(s[n].nums, x.nums) {
        forall i | 0 <= i < n ensures LexLeq(s[i].nums, x.nums) {
          LexLeqTransitive(s[i].nums, s[n].nums, x.nums);
        }
      } else {
        InsertSorted(s[..n], x);
        var front := Insert(s[..n], x);
        forall i | 0 <= i < |front| ensures LexLeq(front[i].nums, s[n].nums) {
          var y := front[i];
          assert y in multiset(front);
          assert y == x || y in s[..n];
        }
      }
    }
  }

  lemma {:induction false} SortSorted(s: seq<Record>)
    ensures Sorted(Sort(s))
  {
    if s != [] {
      SortSorted(s[..|s| - 1]);
      InsertSorted(Sort(s[..|s| - 1]), s[|s| - 1]);
    }
  }

  // ---------- Clusters ----------

  /** Consecutive clusters of `k` records, the last taking the remainder. */
  function Clusters(records: seq<Record>, k: nat): seq<seq<Record>>
    requires k > 0
    decreases |records|
  {
    if |records| < 2 * k then [records] else [records[..k]] + Clusters(records[k..], k)
  }

  function Slices(records: seq<Record>, k: nat): seq<seq<Record>>
    requires k > 0
    decreases |records|
  {
    if records == [] then [] else if |records| <= k then [records] else [records[..k]] + Slices(records[k..], k)
  }

  function MergeShortTail(slices: seq<seq<Record>>, k: nat): seq<seq<Record>> {
    var n := |slices|;
    if n > 1 && |slices[n - 1]| < k then slices[..n - 2] + [slices[n - 2] + slices[n - 1]] else slices
  }

  /** Merging a short last slice into the one before gives those clusters. */
  lemma {:induction false} MergedSlicesAreClusters(records: seq<Record>, k: nat)
    requires 0 < k <= |records|
    ensures MergeShortTail(Slices(records, k), k) == Clusters(records, k)
    decreases |records|
  {
    if |records| > k {
      var rest := records[k..];
      if |records| < 2 * k {
        assert Slices(records, k) == [records[..k], rest];
        assert records[..k] + rest == records;
      } else {
        MergedSlicesAreClusters(rest, k);
        var slices := Slices(rest, k);
      }
    }
  }

  method MakeClusters(coded: seq<Record>, k: nat) returns (clusters: seq<seq<Record>>)
    requires 0 < k <= |coded|
    ensures clusters == Clusters(coded, k)
  {
    hide Slices, Clusters;
    clusters := [];
    var index := 0;
    assert coded[0..] == coded;
    while index < |coded|
      invariant 0 <= index
      invariant clusters + Slices(coded[AtMost(index, |coded|)..], k) == Slices(coded, k)
      decreases |coded| - index
    {
      var end := AtMost(index + k, |coded|);
      SliceStep(coded, index, end, k);
      clusters := clusters + [coded[index..end]];
      index := index + k;
    }
    SliceEnd(coded, k);
    MergedSlicesAreClusters(coded, k);
    var n := |clusters|;
    if n > 1 && |clusters[n - 1]| < k {
      clusters := clusters[..n - 2] + [clusters[n - 2] + clusters[n - 1]];
    }
  }

  function AtMost(n: int, most: int): int {
    if n < most then n else most
  }

  lemma SliceStep(coded: seq<Record>, index: nat, end: nat, k: nat)
    requires 0 < k && index < |coded| && end == AtMost(index + k, |coded|)
    ensures Slices(coded[index..], k) == [coded[index..end]] + Slices(coded[end..], k)
  {
    var rest := coded[index..];
    if index + k < |coded| {
      assert rest[..k] == coded[index..end] && rest[k..] == coded[end..];
    } else {
      assert coded[index..end] == rest && coded[end..] == [];
    }
  }

  lemma SliceEnd(coded: seq<Record>, k: nat)
    requires 0 < k
    ensures Slices(coded[|coded|..], k) == []
  {
  }

  function Flatten(clusters: seq<seq<Record>>): seq<Record> {
    if clusters == [] then [] else clusters[0] + Flatten(clusters[1..])
  }

  /** Clusters partition the records in order, and hold between k and 2k - 1 of them. */
  lemma {:induction false} ClustersPartition(records: seq<Record>, k: nat)
    requires 0 < k <= |records|
    ensures Flatten(Clusters(records, k)) == records
    ensures forall c :: c in Clusters(records, k) ==> k <= |c| < 2 * k
    decreases |records|
  {
    if |records| < 2 * k {
      assert Flatten([records]) == records + Flatten([]);
    } else {
      ClustersPartition(records[k..], k);
      assert records == records[..k] + records[k..];
    }
  }

  // ---------- Means ----------

  function Num(record: Record, c: nat): real {
    if c < |record.nums| then record.nums[c] else 0.0
  }

  function ColumnSum(records: seq<Record>, c: nat): real {
    if records == [] then 0.0 else Num(records[0], c) + ColumnSum(records[1..], c)
  }

  function Means(cluster: seq<Record>, width: nat): seq<real>
    requires cluster != [] && Wide(cluster, width)
  {
    seq(width, c requires 0 <= c < width => ColumnSum(cluster, c) / (|cluster| as real))
  }

  /** Every numeric column of the cluster set to its mean. */
  function Averaged(cluster: seq<Record>, width: nat): (r: seq<Record>)
    requires cluster != [] && Wide(cluster, width)
    ensures |r| == |cluster| && Wide(r, width)
  {
    seq(|cluster|, i requires 0 <= i < |cluster| => cluster[i].(nums := Means(cluster, width)))
  }

  predicate ClustersWide(clusters: seq<seq<Record>>, width: nat) {
    forall i :: 0 <= i < |clusters| ==> clusters[i] != [] && Wide(clusters[i], width)
  }

  function AverageAll(clusters: seq<seq<Record>>, width: nat): (r: seq<Record>)
    requires ClustersWide(clusters, width)
    ensures Wide(r, width)
  {
    if clusters == [] then [] else Averaged(clusters[0], width) + AverageAll(clusters[1..], width)
  }

  /** The averaging loops: per cluster and column, the mean is written into every record. */
  method WriteMeans(cluster: seq<Record>, width: nat) returns (r: seq<Record>)
    requires cluster != [] && Wide(cluster, width)
    ensures r == Averaged(cluster, width)
  {
    r := cluster;
    for c := 0 to width
      invariant |r| == |cluster| && Wide(r, width)
      invariant forall i :: 0 <= i < |r| ==> r[i].row == cluster[i].row
      invariant forall i, d :: 0 <= i < |r| && 0 <= d < c ==> r[i].nums[d] == Means(cluster, width)[d]
      invariant forall i, d :: 0 <= i < |r| && c <= d < width ==> r[i].nums[d] == cluster[i].nums[d]
    {
      forall i | 0 <= i < |r| ensures Num(r[i], c) == Num(cluster[i], c) {
        assert r[i].nums[c] == cluster[i].nums[c];
      }
      SameColumn(r, cluster, c);
      var mean := ColumnSum(r, c) / (|r| as real);
      ghost var before := r;
      for i := 0 to |r|
        invariant |r| == |cluster| && Wide(r, width)
        invariant forall m :: 0 <= m < |r| ==> r[m] == if m < i then before[m].(nums := before[m].nums[c := mean]) else before[m]
      {
        r := r[i := r[i].(nums := r[i].nums[c := mean])];
      }
      assert mean == Means(cluster, width)[c];
    }
    forall i | 0 <= i < |r| ensures r[i] == Averaged(cluster, width)[i] {
      assert r[i].nums == Means(cluster, width);
    }
  }

  lemma SameColumn(a: seq<Record>, b: seq<Record>, c: nat)
    requires |a| == |b| && forall i :: 0 <= i < |a| ==> Num(a[i], c) == Num(b[i], c)
    ensures ColumnSum(a, c) == ColumnSum(b, c)
  {
    if a != [] {
      SameColumn(a[1..], b[1..], c);
    }
  }

  lemma SumConcat(a: seq<Record>, b: seq<Record>, c: nat)
    ensures ColumnSum(a + b, c) == ColumnSum(a, c) + ColumnSum(b, c)
  {
    if a == [] {
      assert a + b == b;
    } else {
      SumConcat(a[1..], b, c);
      assert (a + b)[1..] == a[1..] + b;
    }
  }

  lemma ConstantSum(a: seq<Record>, c: nat, v: real)
    requires forall i :: 0 <= i < |a| ==> Num(a[i], c) == v
    ensures ColumnSum(a, c) == (|a| as real) * v
  {
    if a != [] {
      ConstantSum(a[1..], c, v);
      assert (|a| as real) * v == ((|a| - 1) as real) * v + v;
    }
  }

  /** Averaging a cluster conserves every column sum. */
  lemma AveragingConservesSum(cluster: seq<Record>, width: nat, c: nat)
    requires cluster != [] && Wide(cluster, width) && c < width
    ensures ColumnSum(Averaged(cluster, width), c) == ColumnSum(cluster, c)
  {
    var s, n := ColumnSum(cluster, c), |cluster| as real;
    ConstantSum(Averaged(cluster, width), c, s / n);
    assert n * (s / n) == s;
  }

  lemma {:induction false} AllAveragingConservesSum(clusters: seq<seq<Record>>, width: nat, c: nat)
    requires ClustersWide(clusters, width) && c < width
    ensures Wide(Flatten(clusters), width)
    ensures ColumnSum(AverageAll(clusters, width), c) == ColumnSum(Flatten(clusters), c)
  {
    if clusters != [] {
      var first, rest := clusters[0], clusters[1..];
      AllAveragingConservesSum(rest, width, c);
      AveragingConservesSum(first, width, c);
      SumConcat(first, Flatten(rest), c);
      SumConcat(Averaged(first, width), AverageAll(rest, width), c);
    }
  }

  lemma SumBetween(a: seq<Record>, c: nat, b: (Option<real>, Option<real>))
    requires forall i :: 0 <= i < |a| ==> WithinBound(Num(a[i], c), b)
    ensures b.0.Some? ==> (|a| as real) * b.0.value <= ColumnSum(a, c)
    ensures b.1.Some? ==> ColumnSum(a, c) <= (|a| as real) * b.1.value
  {
    if a != [] {
      SumBetween(a[1..], c, b);
      assert b.0.Some? ==> (|a| as real) * b.0.value == ((|a| - 1) as real) * b.0.value + b.0.value;
      assert b.1.Some? ==> (|a| as real) * b.1.value == ((|a| - 1) as real) * b.1.value + b.1.value;
    }
  }

  /** Means stay within the coding bounds of their column. */
  lemma MeansStayWithinBounds(cluster: seq<Record>, width: nat, c: nat, b: (Option<real>, Option<real>))
    requires cluster != [] && Wide(cluster, width) && c < width
    requires forall i :: 0 <= i < |cluster| ==> WithinBound(cluster[i].nums[c], b)
    ensures WithinBound(Means(cluster, width)[c], b)
  {
    SumBetween(cluster, c, b);
    var s, n := ColumnSum(cluster, c), |cluster| as real;
    if b.0.Some? {
      MeanBeside(s, n, b.0.value);
    }
    if b.1.Some? {
      MeanBeside(s, n, b.1.value);
    }
  }

  lemma MeanBeside(s: real, n: real, x: real)
    requires n > 0.0
    ensures n * x <= s ==> x <= s / n
    ensures s <= n * x ==> s / n <= x
  {
    var q := s / n;
    assert q * n == s;
    if q < x {
      assert (x - q) * n > 0.0;
    } else if x < q {
      assert (q - x) * n > 0.0;
    }
  }

  // ---------- k-anonymity of the averaged records ----------

  function KeysBy(f: seq<real> -> Key, records: seq<Record>): (keys: seq<Key>)
    ensures |keys| == |records|
  {
    seq(|records|, i requires 0 <= i < |records| => f(records[i].nums))
  }

  lemma UniformClass(keys: seq<Key>, key: Key)
    requires forall i :: 0 <= i < |keys| ==> keys[i] == key
    ensures ClassSize(keys, key) == |keys|
  {
  }

  /** Whatever key is read off the numeric columns, clusters of k records give classes of k. */
  lemma {:induction false} AveragesAreKAnonymous(clusters: seq<seq<Record>>, width: nat, f: seq<real> -> Key, k: nat)
    requires ClustersWide(clusters, width) && forall c :: c in clusters ==> |c| >= k
    ensures KAnonymous(KeysBy(f, AverageAll(clusters, width)), k)
  {
    if clusters != [] {
      var first, rest := clusters[0], clusters[1..];
      AveragesAreKAnonymous(rest, width, f, k);
      var head, tail := KeysBy(f, Averaged(first, width)), KeysBy(f, AverageAll(rest, width));
      var all := KeysBy(f, AverageAll(clusters, width));
      assert all == head + tail;
      UniformClass(head, f(Means(first, width)));
      forall i | 0 <= i < |all| ensures IsSafe(all, k, i) {
        ClassSizeConcat(head, tail, all[i]);
        if i < |head| {
          assert all[i] == f(Means(first, width));
        } else {
          assert all[i] == tail[i - |head|];
          assert IsSafe(tail, k, i - |head|);
        }
      }
    }
  }

  // ---------- The whole transform ----------

  /** Reading and printing numbers: nothing is assumed about either. */
  datatype Numerals = Numerals(parse: string -> Option<real>, render: real -> string)

  function BoundOf(bounds: Bounds, column: string): (Option<real>, Option<real>) {
    if column in bounds then bounds[column] else (None, None)
  }

  predicate RowReadable(n: Numerals, row: Row, numeric: seq<string>) {
    forall c :: 0 <= c < |numeric| ==> numeric[c] in row && n.parse(row[numeric[c]]).Some?
  }

  function CodedNums(n: Numerals, row: Row, numeric: seq<string>, bounds: Bounds): (r: seq<real>)
    requires RowReadable(n, row, numeric)
    ensures |r| == |numeric|
  {
    seq(|numeric|, c requires 0 <= c < |numeric| => Coded(n.parse(row[numeric[c]]).value, BoundOf(bounds, numeric[c])))
  }

  function CodedRecords(n: Numerals, rows: seq<Row>, numeric: seq<string>, bounds: Bounds): (r: seq<Record>)
    requires forall i :: 0 <= i < |rows| ==> RowReadable(n, rows[i], numeric)
    ensures |r| == |rows| && Wide(r, |numeric|)
  {
    seq(|rows|, i requires 0 <= i < |rows| => Record(CodedNums(n, rows[i], numeric, bounds), rows[i]))
  }

  /** A record's row with the numeric columns overwritten by the rendered means. */
  function Released(n: Numerals, record: Record, numeric: seq<string>, m: nat): Row
    requires |record.nums| == |numeric| && m <= |numeric|
  {
    if m == 0 then record.row
    else Released(n, record, numeric, m - 1)[numeric[m - 1] := n.render(record.nums[m - 1])]
  }

  lemma ReleasedCell(n: Numerals, record: Record, numeric: seq<string>, m: nat, c: nat)
    requires |record.nums| == |numeric| && c < m <= |numeric|
    requires forall i, j :: 0 <= i < j < |numeric| ==> numeric[i] != numeric[j]
    ensures numeric[c] in Released(n, record, numeric, m)
    ensures Released(n, record, numeric, m)[numeric[c]] == n.render(record.nums[c])
  {
    if c < m - 1 {
      ReleasedCell(n, record, numeric, m - 1, c);
    }
  }

  lemma ReleasedKeys(n: Numerals, record: Record, numeric: seq<string>, m: nat)
    requires |record.nums| == |numeric| && m <= |numeric|
    ensures Released(n, record, numeric, m).Keys >= record.row.Keys
  {
  }

  function ReleasedRows(n: Numerals, records: seq<Record>, numeric: seq<string>): seq<Row>
    requires Wide(records, |numeric|)
  {
    seq(|records|, i requires 0 <= i < |records| => Released(n, records[i], numeric, |numeric|))
  }

  predicate ValidParameters(k: nat, numeric: seq<string>, columns: seq<string>) {
    && k >= 2 && numeric != []
    && (forall i, j :: 0 <= i < j < |numeric| ==> numeric[i] != numeric[j])
    && forall c :: c in numeric ==> c in columns
  }

  /** What is wrong with the first bad cell among the first `c` numeric columns of a row. */
  function RowProblem(n: Numerals, row: Row, numeric: seq<string>, bounds: Bounds, c: nat)
    : Option<MicroError>
    requires c <= |numeric| && forall d :: 0 <= d < |numeric| ==> numeric[d] in row
  {
    if c == 0 then None
    else
      var earlier := RowProblem(n, row, numeric, bounds, c - 1);
      if earlier.Some? then earlier
      else if n.parse(row[numeric[c - 1]]).None? then Some(NotNumeric)
      else if !BoundOk(BoundOf(bounds, numeric[c - 1])) then Some(InvalidBounds)
      else None
  }

  /** What is wrong with the first bad cell, row by row. */
  function CodeProblem(n: Numerals, rows: seq<Row>, numeric: seq<string>, bounds: Bounds, m: nat)
    : Option<MicroError>
    requires m <= |rows| && forall i, c :: 0 <= i < |rows| && 0 <= c < |numeric| ==> numeric[c] in rows[i]
  {
    if m == 0 then None
    else
      var earlier := CodeProblem(n, rows, numeric, bounds, m - 1);
      if earlier.Some? then earlier else RowProblem(n, rows[m - 1], numeric, bounds, |numeric|)
  }

  lemma {:induction false} RowProblemPersists(n: Numerals, row: Row, numeric: seq<string>,
                                              bounds: Bounds, c: nat, d: nat)
    requires c <= d <= |numeric| && forall e :: 0 <= e < |numeric| ==> numeric[e] in row
    requires RowProblem(n, row, numeric, bounds, c).Some?
    ensures RowProblem(n, row, numeric, bounds, d) == RowProblem(n, row, numeric, bounds, c)
  {
    if c < d {
      RowProblemPersists(n, row, numeric, bounds, c, d - 1);
    }
  }

  lemma {:induction false} CodeProblemPersists(n: Numerals, rows: seq<Row>, numeric: seq<string>,
                                               bounds: Bounds, l: nat, m: nat)
    requires l <= m <= |rows| && forall i, c :: 0 <= i < |rows| && 0 <= c < |numeric| ==> numeric[c] in rows[i]
    requires CodeProblem(n, rows, numeric, bounds, l).Some?
    ensures CodeProblem(n, rows, numeric, bounds, m) == CodeProblem(n, rows, numeric, bounds, l)
  {
    hide RowProblem;
    if l < m {
      CodeProblemPersists(n, rows, numeric, bounds, l, m - 1);
    }
  }

  /** What coding makes of a number: the bound it violates, or the number itself. */
  ghost predicate IsCoding(raw: real, coded: real, lower: Option<real>, upper: Option<real>) {
    && (lower.Some? ==> lower.value <= coded) && (upper.Some? ==> coded <= upper.value)
    && (coded == raw || (lower.Some? && raw < lower.value && coded == lower.value)
                     || (upper.Some? && upper.value < raw && coded == upper.value))
  }

  /** Cell by cell, with the bounds declared for the cell's own column. */
  ghost predicate AllCoded(n: Numerals, rows: seq<Row>, numeric: seq<string>, bounds: Bounds, coded: seq<Record>) {
    && |coded| == |rows|
    && forall i :: 0 <= i < |rows| ==>
         coded[i].row == rows[i] && |coded[i].nums| == |numeric|
         && forall c :: 0 <= c < |numeric| ==>
              numeric[c] in rows[i] && n.parse(rows[i][numeric[c]]).Some?
              && var raw := n.parse(rows[i][numeric[c]]).value;
                 if numeric[c] in bounds
                 then IsCoding(raw, coded[i].nums[c], bounds[numeric[c]].0, bounds[numeric[c]].1)
                 else coded[i].nums[c] == raw
  }

  /** What the errors say about the cells and their bounds. */
  ghost predicate CellsToBlame(n: Numerals, rows: seq<Row>, numeric: seq<string>, bounds: Bounds, e: MicroError) {
    match e
    case NotNumeric =>
      exists row, c :: row in rows && 0 <= c < |numeric| && numeric[c] in row && n.parse(row[numeric[c]]).None?
    case InvalidBounds =>
      exists c :: 0 <= c < |numeric| && numeric[c] in bounds
        && bounds[numeric[c]].0.Some? && bounds[numeric[c]].1.Some? && bounds[numeric[c]].0.value > bounds[numeric[c]].1.value
    case _ => false
  }

  lemma {:induction false} RowToBlame(n: Numerals, rows: seq<Row>, row: Row, numeric: seq<string>, bounds: Bounds, c: nat)
    requires row in rows && c <= |numeric| && forall d :: 0 <= d < |numeric| ==> numeric[d] in row
    requires RowProblem(n, row, numeric, bounds, c).Some?
    ensures CellsToBlame(n, rows, numeric, bounds, RowProblem(n, row, numeric, bounds, c).value)
  {
    if RowProblem(n, row, numeric, bounds, c - 1).Some? {
      RowToBlame(n, rows, row, numeric, bounds, c - 1);
    }
  }

  lemma {:induction false} ProblemToBlame(n: Numerals, rows: seq<Row>, numeric: seq<string>, bounds: Bounds, m: nat)
    requires m <= |rows| && forall i, c :: 0 <= i < |rows| && 0 <= c < |numeric| ==> numeric[c] in rows[i]
    requires CodeProblem(n, rows, numeric, bounds, m).Some?
    ensures CellsToBlame(n, rows, numeric, bounds, CodeProblem(n, rows, numeric, bounds, m).value)
  {
    hide RowProblem, CellsToBlame;
    if CodeProblem(n, rows, numeric, bounds, m - 1).Some? {
      ProblemToBlame(n, rows, numeric, bounds, m - 1);
    } else {
      RowToBlame(n, rows, rows[m - 1], numeric, bounds, |numeric|);
    }
  }

  lemma {:induction false} BoundsAreOrdered(n: Numerals, row: Row, numeric: seq<string>, bounds: Bounds, c: nat, d: nat)
    requires d < c <= |numeric| && forall e :: 0 <= e < |numeric| ==> numeric[e] in row
    requires RowProblem(n, row, numeric, bounds, c).None?
    ensures BoundOk(BoundOf(bounds, numeric[d]))
  {
    if d < c - 1 {
      BoundsAreOrdered(n, row, numeric, bounds, c - 1, d);
    }
  }

  lemma {:induction false} RowHasNoProblem(n: Numerals, rows: seq<Row>, numeric: seq<string>, bounds: Bounds, m: nat, i: nat)
    requires i < m <= |rows| && forall i, c :: 0 <= i < |rows| && 0 <= c < |numeric| ==> numeric[c] in rows[i]
    requires CodeProblem(n, rows, numeric, bounds, m).None?
    ensures RowProblem(n, rows[i], numeric, bounds, |numeric|).None?
  {
    hide RowProblem;
    if i < m - 1 {
      RowHasNoProblem(n, rows, numeric, bounds, m - 1, i);
    }
  }

  lemma CodedIsCoding(v: real, b: (Option<real>, Option<real>))
    requires BoundOk(b)
    ensures IsCoding(v, Coded(v, b), b.0, b.1)
  {
  }

  lemma CodedRecordsAreCoded(n: Numerals, rows: seq<Row>, numeric: seq<string>, bounds: Bounds)
    requires forall i, c :: 0 <= i < |rows| && 0 <= c < |numeric| ==> numeric[c] in rows[i]
    requires CodeProblem(n, rows, numeric, bounds, |rows|).None?
    requires forall i :: 0 <= i < |rows| ==> RowReadable(n, rows[i], numeric)
    ensures AllCoded(n, rows, numeric, bounds, CodedRecords(n, rows, numeric, bounds))
  {
    hide RowProblem, CodeProblem, IsCoding, BoundOk, Coded;
    var coded := CodedRecords(n, rows, numeric, bounds);
    forall i, c | 0 <= i < |rows| && 0 <= c < |numeric|
      ensures var raw := n.parse(rows[i][numeric[c]]).value;
        IsCoding(raw, coded[i].nums[c], BoundOf(bounds, numeric[c]).0, BoundOf(bounds, numeric[c]).1)
    {
      RowHasNoProblem(n, rows, numeric, bounds, |rows|, i);
      BoundsAreOrdered(n, rows[i], numeric, bounds, |numeric|, c);
      CodedIsCoding(n.parse(rows[i][numeric[c]]).value, BoundOf(bounds, numeric[c]));
    }
    UnboundedIsKept();
  }

  lemma UnboundedIsKept()
    ensures forall raw, coded :: IsCoding(raw, coded, None, None) ==> coded == raw
  {
  }

  /** Codes every row, or reports the first cell that is not a number or has inverted bounds. */
  method CodeRows(n: Numerals, rows: seq<Row>, numeric: seq<string>, bounds: Bounds)
    returns (r: Result<seq<Record>, MicroError>)
    requires forall i, c :: 0 <= i < |rows| && 0 <= c < |numeric| ==> numeric[c] in rows[i]
    ensures match CodeProblem(n, rows, numeric, bounds, |rows|)
      case Some(e) => r == Err(e)
      case None =>
        && (forall i :: 0 <= i < |rows| ==> RowReadable(n, rows[i], numeric))
        && r == Ok(CodedRecords(n, rows, numeric, bounds))
    ensures r.Ok? ==> AllCoded(n, rows, numeric, bounds, r.value)
    ensures r.Err? ==> CellsToBlame(n, rows, numeric, bounds, r.error)
  {
    hide RowReadable, CodedNums, RowProblem, AllCoded, CellsToBlame;
    var coded: seq<Record> := [];
    for i := 0 to |rows|
      invariant CodeProblem(n, rows, numeric, bounds, i) == None
      invariant forall m :: 0 <= m < i ==> RowReadable(n, rows[m], numeric)
      invariant |coded| == i && forall m :: 0 <= m < i ==> coded[m] == Record(CodedNums(n, rows[m], numeric, bounds), rows[m])
    {
      var nums := CodeRow(n, rows[i], numeric, bounds);
      if nums.Err? {
        CodeProblemPersists(n, rows, numeric, bounds, i + 1, |rows|);
        ProblemToBlame(n, rows, numeric, bounds, |rows|);
        return Err(nums.error);
      }
      coded := coded + [Record(nums.value, rows[i])];
    }
    assert coded == CodedRecords(n, rows, numeric, bounds);
    CodedRecordsAreCoded(n, rows, numeric, bounds);
    return Ok(coded);
  }

  /** The inner loop: the numeric cells of one row. */
  method CodeRow(n: Numerals, row: Row, numeric: seq<string>, bounds: Bounds)
    returns (r: Result<seq<real>, MicroError>)
    requires forall c :: 0 <= c < |numeric| ==> numeric[c] in row
    ensures match RowProblem(n, row, numeric, bounds, |numeric|)
      case Some(e) => r == Err(e)
      case None => RowReadable(n, row, numeric) && r == Ok(CodedNums(n, row, numeric, bounds))
  {
    var nums: seq<real> := [];
    for c := 0 to |numeric|
      invariant RowProblem(n, row, numeric, bounds, c) == None
      invariant |nums| == c && forall d :: 0 <= d < c ==> n.parse(row[numeric[d]]).Some?
      invariant forall d :: 0 <= d < c ==> nums[d] == Coded(n.parse(row[numeric[d]]).value, BoundOf(bounds, numeric[d]))
    {
      var value := n.parse(row[numeric[c]]);
      if value.None? {
        RowProblemPersists(n, row, numeric, bounds, c + 1, |numeric|);
        return Err(NotNumeric);
      }
      var bound := BoundOf(bounds, numeric[c]);
      if !BoundOk(bound) {
        RowProblemPersists(n, row, numeric, bounds, c + 1, |numeric|);
        return Err(InvalidBounds);
      }
      nums := nums + [Coded(value.value, bound)];
    }
    assert nums == CodedNums(n, row, numeric, bounds);
    return Ok(nums);
  }

  method AverageClusters(clusters: seq<seq<Record>>, width: nat) returns (r: seq<Record>)
    requires ClustersWide(clusters, width)
    ensures r == AverageAll(clusters, width)
  {
    r := [];
    for i := 0 to |clusters|
      invariant r + AverageAll(clusters[i..], width) == AverageAll(clusters, width)
    {
      assert clusters[i..][0] == clusters[i] && clusters[i..][1..] == clusters[i + 1..];
      var averaged := WriteMeans(clusters[i], width);
      r := r + averaged;
    }
  }

  lemma SortedStaysWide(records: seq<Record>, width: nat, k: nat)
    requires Wide(records, width) && 0 < k <= |records|
    ensures |Sort(records)| == |records| && Wide(Sort(records), width)
    ensures ClustersWide(Clusters(Sort(records), k), width)
  {
    var sorted := Sort(records);
    assert |multiset(sorted)| == |multiset(records)|;
    forall i | 0 <= i < |sorted| ensures |sorted[i].nums| == width {
      assert sorted[i] in multiset(sorted);
      assert sorted[i] in records;
    }
    ClustersStayWide(sorted, width, k);
  }

  lemma ClustersStayWide(records: seq<Record>, width: nat, k: nat)
    requires Wide(records, width) && 0 < k <= |records|
    ensures ClustersWide(Clusters(records, k), width)
    decreases |records|
  {
    if |records| >= 2 * k {
      ClustersStayWide(records[k..], width, k);
    }
  }

  /** The averaged records a release is rendered from. */
  function Aggregate(coded: seq<Record>, width: nat, k: nat): (r: seq<Record>)
    requires Wide(coded, width) && 0 < k <= |coded|
    ensures Wide(r, width)
  {
    SortedStaysWide(coded, width, k);
    AverageAll(Clusters(Sort(coded), k), width)
  }

  /** Averaging changes numeric columns only: position by position, rows are kept. */
  lemma {:induction false} AveragingKeepsRows(clusters: seq<seq<Record>>, width: nat)
    requires ClustersWide(clusters, width)
    ensures |AverageAll(clusters, width)| == |Flatten(clusters)|
    ensures forall i :: 0 <= i < |Flatten(clusters)| ==> AverageAll(clusters, width)[i].row == Flatten(clusters)[i].row
  {
    if clusters != [] {
      AveragingKeepsRows(clusters[1..], width);
    }
  }

  /** The released records are the coded ones, sorted, with only their numeric columns changed. */
  lemma AggregateKeepsRows(coded: seq<Record>, width: nat, k: nat)
    requires Wide(coded, width) && 0 < k <= |coded|
    ensures |Aggregate(coded, width, k)| == |coded|
    ensures |Sort(coded)| == |coded| && multiset(Sort(coded)) == multiset(coded) && Sorted(Sort(coded))
    ensures forall i :: 0 <= i < |coded| ==> Aggregate(coded, width, k)[i].row == Sort(coded)[i].row
  {
    SortedStaysWide(coded, width, k);
    SortSorted(coded);
    AveragingKeepsRows(Clusters(Sort(coded), k), width);
    ClustersPartition(Sort(coded), k);
  }

  lemma ReleaseHasColumns(n: Numerals, rows: seq<Row>, fields: set<string>, coded: seq<Record>, columns: seq<string>,
                          numeric: seq<string>, k: nat)
    requires Wide(coded, |numeric|) && 0 < k <= |coded| == |rows|
    requires forall i :: 0 <= i < |rows| ==> rows[i].Keys == fields && coded[i].row == rows[i]
    requires forall j :: 0 <= j < |columns| ==> columns[j] in fields
    ensures HasColumns(ReleasedRows(n, Aggregate(coded, |numeric|, k), numeric), columns)
  {
    AggregateKeepsRows(coded, |numeric|, k);
    var records := Aggregate(coded, |numeric|, k);
    forall i | 0 <= i < |records| ensures records[i].row.Keys == fields {
      assert Sort(coded)[i] in multiset(Sort(coded));
      assert Sort(coded)[i] in coded;
    }
    forall i, j | 0 <= i < |records| && 0 <= j < |columns| ensures columns[j] in Released(n, records[i], numeric, |numeric|) {
      ReleasedKeys(n, records[i], numeric, |numeric|);
    }
  }

  /** The clustering and averaging of the coded records. */
  method Average(coded: seq<Record>, width: nat, k: nat) returns (averaged: seq<Record>)
    requires Wide(coded, width) && 0 < k <= |coded|
    ensures averaged == Aggregate(coded, width, k)
  {
    hide Sort, Clusters, AverageAll;
    SortedStaysWide(coded, width, k);
    var clusters := MakeClusters(Sort(coded), k);
    averaged := AverageClusters(clusters, width);
  }

  /** Why a request is refused before any value is looked at. */
  function RequestProblem(fields: set<string>, rows: seq<Row>, columns: seq<string>, sensitive: string,
                          numeric: seq<string>, k: nat): Option<MicroError> {
    if !ValidParameters(k, numeric, columns) then Some(InvalidParameters)
    else if fields == {} || rows == [] then Some(NoRecords)
    else if sensitive !in fields || exists j :: 0 <= j < |columns| && columns[j] !in fields then Some(MissingColumns)
    else if |rows| < k then Some(TooFewRecords)
    else None
  }

  lemma NumericColumnsExist(fields: set<string>, rows: seq<Row>, columns: seq<string>, sensitive: string,
                            numeric: seq<string>, k: nat)
    requires RequestProblem(fields, rows, columns, sensitive, numeric, k) == None
    requires forall i :: 0 <= i < |rows| ==> rows[i].Keys == fields
    ensures forall i, c :: 0 <= i < |rows| && 0 <= c < |numeric| ==> numeric[c] in rows[i]
  {
    forall i, c | 0 <= i < |rows| && 0 <= c < |numeric| ensures numeric[c] in rows[i] {
      assert numeric[c] in numeric;
    }
  }

  function SourceRows(records: seq<Record>): (rows: seq<Row>)
    ensures |rows| == |records| && forall i :: 0 <= i < |records| ==> rows[i] == records[i].row
  {
    seq(|records|, i requires 0 <= i < |records| => records[i].row)
  }

  lemma TakeOut(a: seq<Record>, x: Record, before: seq<Record>, after: seq<Record>)
    requires multiset(a + [x]) == multiset(before + [x] + after)
    ensures multiset(a) == multiset(before + after)
  {
    assert multiset(a + [x]) == multiset(a) + multiset{x};
    assert multiset(before + [x] + after) == multiset(before + after) + multiset{x};
    assert multiset(a) == multiset(a + [x]) - multiset{x} == multiset(before + after);
  }

  lemma PutIn(a: seq<Row>, x: Row, before: seq<Row>, after: seq<Row>)
    requires multiset(a) == multiset(before + after)
    ensures multiset(a + [x]) == multiset(before + [x] + after)
  {
    assert multiset(before + [x] + after) == multiset(before + after) + multiset{x};
  }

  lemma SourceRowsConcat(a: seq<Record>, b: seq<Record>)
    ensures SourceRows(a + b) == SourceRows(a) + SourceRows(b)
  {
  }

  /** A permutation of records is one of their rows. */
  lemma {:induction false} RowsPermute(a: seq<Record>, b: seq<Record>)
    requires multiset(a) == multiset(b)
    ensures multiset(SourceRows(a)) == multiset(SourceRows(b))
    decreases |a|
  {
    assert |multiset(a)| == |a| && |multiset(b)| == |b|;
    if a == [] {
      assert b == [];
    } else {
      var n := |a| - 1;
      var x := a[n];
      assert x in multiset(b);
      var i :| 0 <= i < |b| && b[i] == x;
      var front, before, after := a[..n], b[..i], b[i + 1..];
      assert a == front + [x] && b == before + [x] + after;
      hide SourceRows;
      TakeOut(front, x, before, after);
      RowsPermute(front, before + after);
      SourceRowsConcat(before, after);
      SourceRowsConcat(front, [x]);
      SourceRowsConcat(before, [x]);
      SourceRowsConcat(before + [x], after);
      OneSourceRow(x);
      PutIn(SourceRows(front), x.row, SourceRows(before), SourceRows(after));
    }
  }

  lemma OneSourceRow(x: Record)
    ensures SourceRows([x]) == [x.row]
  {
  }

  ghost predicate InBounds(v: real, column: string, bounds: Bounds) {
    column in bounds ==>
      && (bounds[column].0.Some? ==> bounds[column].0.value <= v)
      && (bounds[column].1.Some? ==> v <= bounds[column].1.value)
  }

  ghost predicate RendersBounded(n: Numerals, cell: string, column: string, bounds: Bounds) {
    exists v :: cell == n.render(v) && InBounds(v, column, bounds)
  }

  /** A released row against its source: numeric cells render numbers within the bounds declared for
      their columns, and nothing else is changed. */
  ghost predicate IsReleasedRow(n: Numerals, numeric: seq<string>, bounds: Bounds, source: Row, item: Row) {
    && item.Keys == source.Keys && (forall c :: c in source && c !in numeric ==> item[c] == source[c])
    && forall c :: 0 <= c < |numeric| ==> numeric[c] in item && RendersBounded(n, item[numeric[c]], numeric[c], bounds)
  }

  /** What is released: every record, in another order, each sharing its quasi-identifiers with `k`. */
  ghost predicate IsRelease(n: Numerals, rows: seq<Row>, columns: seq<string>, numeric: seq<string>, k: nat, bounds: Bounds,
                            released: seq<Row>, sources: seq<Row>) {
    && |released| == |sources| && multiset(sources) == multiset(rows) && AllShared(released, columns, k)
    && forall i :: 0 <= i < |released| ==> IsReleasedRow(n, numeric, bounds, sources[i], released[i])
  }

  lemma {:induction false} OtherCells(n: Numerals, record: Record, numeric: seq<string>, m: nat, c: string)
    requires |record.nums| == |numeric| && m <= |numeric| && c in record.row && c !in numeric
    ensures c in Released(n, record, numeric, m) && Released(n, record, numeric, m)[c] == record.row[c]
  {
    if m > 0 {
      OtherCells(n, record, numeric, m - 1, c);
    }
  }

  lemma {:induction false} SameKeys(n: Numerals, record: Record, numeric: seq<string>, m: nat)
    requires |record.nums| == |numeric| && m <= |numeric| && forall c :: 0 <= c < |numeric| ==> numeric[c] in record.row
    ensures Released(n, record, numeric, m).Keys == record.row.Keys
  {
    if m > 0 {
      SameKeys(n, record, numeric, m - 1);
    }
  }

  lemma RowIsReleased(n: Numerals, record: Record, numeric: seq<string>, bounds: Bounds)
    requires |record.nums| == |numeric| && DistinctColumns(numeric)
    requires forall c :: 0 <= c < |numeric| ==> numeric[c] in record.row && InBounds(record.nums[c], numeric[c], bounds)
    ensures IsReleasedRow(n, numeric, bounds, record.row, Released(n, record, numeric, |numeric|))
  {
    hide Released, InBounds;
    var item := Released(n, record, numeric, |numeric|);
    SameKeys(n, record, numeric, |numeric|);
    forall c | c in record.row && c !in numeric ensures item[c] == record.row[c] {
      OtherCells(n, record, numeric, |numeric|, c);
    }
    forall c | 0 <= c < |numeric| ensures numeric[c] in item && RendersBounded(n, item[numeric[c]], numeric[c], bounds) {
      ReleasedCell(n, record, numeric, |numeric|, c);
    }
  }

  lemma MeansInBounds(n: Numerals, rows: seq<Row>, numeric: seq<string>, bounds: Bounds, coded: seq<Record>, k: nat, i: nat, c: nat)
    requires AllCoded(n, rows, numeric, bounds, coded) && Wide(coded, |numeric|) && 0 < k <= |coded|
    requires c < |numeric| && i < |Aggregate(coded, |numeric|, k)|
    ensures InBounds(Aggregate(coded, |numeric|, k)[i].nums[c], numeric[c], bounds)
  {
    hide Aggregate;
    if numeric[c] in bounds {
      forall p | 0 <= p < |coded| ensures WithinBound(coded[p].nums[c], bounds[numeric[c]]) {
        assert IsCoding(n.parse(rows[p][numeric[c]]).value, coded[p].nums[c], bounds[numeric[c]].0, bounds[numeric[c]].1);
      }
      ReleasedNumbersWithinBounds(coded, |numeric|, k, c, bounds[numeric[c]], i);
    }
  }

  lemma RowsAreReleased(n: Numerals, rows: seq<Row>, numeric: seq<string>, bounds: Bounds, coded: seq<Record>, k: nat)
    requires AllCoded(n, rows, numeric, bounds, coded) && Wide(coded, |numeric|) && 0 < k <= |coded| && DistinctColumns(numeric)
    ensures var released := ReleasedRows(n, Aggregate(coded, |numeric|, k), numeric);
      && |released| == |Sort(coded)| == |rows|
      && forall i :: 0 <= i < |released| ==> IsReleasedRow(n, numeric, bounds, SourceRows(Sort(coded))[i], released[i])
  {
    hide Aggregate, Sort, IsReleasedRow, InBounds;
    AggregateKeepsRows(coded, |numeric|, k);
    var records := Aggregate(coded, |numeric|, k);
    forall i | 0 <= i < |records|
      ensures IsReleasedRow(n, numeric, bounds, records[i].row, Released(n, records[i], numeric, |numeric|))
    {
      assert Sort(coded)[i] in multiset(Sort(coded));
      assert Sort(coded)[i] in coded;
      forall c | 0 <= c < |numeric| ensures InBounds(records[i].nums[c], numeric[c], bounds) {
        MeansInBounds(n, rows, numeric, bounds, coded, k, i, c);
      }
      RowIsReleased(n, records[i], numeric, bounds);
    }
  }

  lemma AveragedIsRelease(n: Numerals, rows: seq<Row>, columns: seq<string>, numeric: seq<string>, k: nat, bounds: Bounds,
                          coded: seq<Record>, released: seq<Row>)
    requires AllCoded(n, rows, numeric, bounds, coded) && Wide(coded, |numeric|) && 0 < k <= |coded| && DistinctColumns(numeric)
    requires released == ReleasedRows(n, Aggregate(coded, |numeric|, k), numeric)
    requires HasColumns(released, columns) && KAnonymous(Tuples(released, columns), k)
    ensures exists sources :: IsRelease(n, rows, columns, numeric, k, bounds, released, sources)
  {
    RowsAreReleased(n, rows, numeric, bounds, coded, k);
    assert SourceRows(coded) == rows;
    hide Aggregate, Sort, IsReleasedRow, AllShared, KAnonymous, HasColumns, Tuples, ReleasedRows;
    AggregateKeepsRows(coded, |numeric|, k);
    RowsPermute(Sort(coded), coded);
    KAnonymousIffShared(released, columns, k);
    assert IsRelease(n, rows, columns, numeric, k, bounds, released, SourceRows(Sort(coded)));
  }

  /** What each error says about the request. */
  ghost predicate RequestBlamed(e: MicroError, n: Numerals, fields: set<string>, rows: seq<Row>, columns: seq<string>,
                                sensitive: string, numeric: seq<string>, k: nat, bounds: Bounds) {
    match e
    case InvalidParameters => k < 2 || numeric == [] || !DistinctColumns(numeric) || exists c :: c in numeric && c !in columns
    case NoRecords => fields == {} || rows == []
    case MissingColumns => sensitive !in fields || exists c :: c in columns && c !in fields
    case TooFewRecords => |rows| < k
    case AuditRefused => !DistinctColumns(columns)
    case BoundUnsatisfied => true
    case _ => CellsToBlame(n, rows, numeric, bounds, e)
  }

  lemma CellErrorIsBlamed(e: MicroError, n: Numerals, fields: set<string>, rows: seq<Row>, columns: seq<string>,
                          sensitive: string, numeric: seq<string>, k: nat, bounds: Bounds)
    requires CellsToBlame(n, rows, numeric, bounds, e)
    ensures RequestBlamed(e, n, fields, rows, columns, sensitive, numeric, k, bounds)
  {
  }

  /** Releases the averaged records exactly when nothing is wrong and they are k-anonymous; every
      other outcome has its own error. */
  method Microaggregate(n: Numerals, fields: set<string>, rows: seq<Row>, columns: seq<string>, sensitive: string,
                        numeric: seq<string>, k: nat, bounds: Bounds)
    returns (r: Result<seq<Row>, MicroError>)
    requires forall i :: 0 <= i < |rows| ==> rows[i].Keys == fields
    ensures match RequestProblem(fields, rows, columns, sensitive, numeric, k)
      case Some(e) => r == Err(e)
      case None =>
        && (forall i, c :: 0 <= i < |rows| && 0 <= c < |numeric| ==> numeric[c] in rows[i])
        && match CodeProblem(n, rows, numeric, bounds, |rows|)
           case Some(e) => r == Err(e)
           case None =>
             && k <= |rows| && 0 < k && (forall i :: 0 <= i < |rows| ==> RowReadable(n, rows[i], numeric))
             && var released := ReleasedRows(n, Aggregate(CodedRecords(n, rows, numeric, bounds), |numeric|, k), numeric);
                HasColumns(released, columns)
                && r == if !DistinctColumns(columns) then Err(AuditRefused)
                        else if !KAnonymous(Tuples(released, columns), k) then Err(BoundUnsatisfied)
                        else Ok(released)
    ensures r.Ok? ==> exists sources :: IsRelease(n, rows, columns, numeric, k, bounds, r.value, sources)
    ensures r.Ok? ==>
      && 2 <= k <= |rows| && numeric != [] && DistinctColumns(numeric) && DistinctColumns(columns)
      && (forall c :: c in numeric ==> c in columns) && sensitive in fields && (forall c :: c in columns ==> c in fields)
    ensures r.Err? ==> RequestBlamed(r.error, n, fields, rows, columns, sensitive, numeric, k, bounds)
  {
    hide Sort, AllCoded, CellsToBlame, IsRelease, Aggregate, Clusters, AverageAll, KAnonymous, RowReadable, CodedNums, ValidParameters, Tuples, Released, CodeProblem;
    ParametersSpelled(k, numeric, columns);
    if !ValidParameters(k, numeric, columns) {
      return Err(InvalidParameters);
    }
    if fields == {} || rows == [] {
      return Err(NoRecords);
    }
    if sensitive !in fields || exists j :: 0 <= j < |columns| && columns[j] !in fields {
      return Err(MissingColumns);
    }
    if |rows| < k {
      return Err(TooFewRecords);
    }
    NumericColumnsExist(fields, rows, columns, sensitive, numeric, k);
    AtLeastTwo(k, numeric, columns);
    var coded := CodeRows(n, rows, numeric, bounds);
    if coded.Err? {
      CellErrorIsBlamed(coded.error, n, fields, rows, columns, sensitive, numeric, k, bounds);
      return Err(coded.error);
    }
    var averaged := Average(coded.value, |numeric|, k);
    var released := ReleasedRows(n, averaged, numeric);
    ReleaseHasColumns(n, rows, fields, coded.value, columns, numeric, k);
    if !DistinctColumns(columns) {
      return Err(AuditRefused);
    }
    if !KAnonymous(Tuples(released, columns), k) {
      return Err(BoundUnsatisfied);
    }
    AveragedIsRelease(n, rows, columns, numeric, k, bounds, coded.value, released);
    return Ok(released);
  }

  lemma ParametersSpelled(k: nat, numeric: seq<string>, columns: seq<string>)
    ensures ValidParameters(k, numeric, columns) <==>
      2 <= k && numeric != [] && DistinctColumns(numeric) && forall c :: c in numeric ==> c in columns
  {
  }

  lemma AtLeastTwo(k: nat, numeric: seq<string>, columns: seq<string>)
    requires ValidParameters(k, numeric, columns)
    ensures k >= 2
  {
  }

  // ---------- What the transform guarantees ----------

  lemma {:induction false} InsertSum(s: seq<Record>, x: Record, c: nat)
    ensures ColumnSum(Insert(s, x), c) == ColumnSum(s, c) + Num(x, c)
  {
    hide LexLeq, Num;
    OneSum(x, c);
    if s != [] {
      var n := |s| - 1;
      OneSum(s[n], c);
      SumConcat(s, [x], c);
      InsertSum(s[..n], x, c);
      SumConcat(Insert(s[..n], x), [s[n]], c);
      SumConcat(s[..n], [s[n]], c);
      assert s == s[..n] + [s[n]];
    }
  }

  lemma OneSum(x: Record, c: nat)
    ensures ColumnSum([x], c) == Num(x, c)
  {
    assert [x][1..] == [];
  }

  lemma {:induction false} SortSum(s: seq<Record>, c: nat)
    ensures ColumnSum(Sort(s), c) == ColumnSum(s, c)
  {
    hide Insert, Num;
    if s != [] {
      var n := |s| - 1;
      SortSum(s[..n], c);
      InsertSum(Sort(s[..n]), s[n], c);
      SumConcat(s[..n], [s[n]], c);
      OneSum(s[n], c);
      assert s == s[..n] + [s[n]];
    }
  }

  /** Column sums of the coded data are conserved exactly. */
  lemma AggregateConservesSums(coded: seq<Record>, width: nat, k: nat, c: nat)
    requires Wide(coded, width) && 0 < k <= |coded| && c < width
    ensures ColumnSum(Aggregate(coded, width, k), c) == ColumnSum(coded, c)
  {
    SortedStaysWide(coded, width, k);
    AllAveragingConservesSum(Clusters(Sort(coded), k), width, c);
    ClustersPartition(Sort(coded), k);
    SortSum(coded, c);
  }

  /** Every released number lies within the coding bounds of its column. */
  lemma {:induction false} AveragesWithinBounds(clusters: seq<seq<Record>>, width: nat, c: nat, b: (Option<real>,
          Option<real>), i: nat)
    requires ClustersWide(clusters, width) && c < width && i < |AverageAll(clusters, width)|
    requires forall m, p :: 0 <= m < |clusters| && 0 <= p < |clusters[m]| ==> WithinBound(clusters[m][p].nums[c], b)
    ensures WithinBound(AverageAll(clusters, width)[i].nums[c], b)
    decreases |clusters|
  {
    if i < |clusters[0]| {
      MeansStayWithinBounds(clusters[0], width, c, b);
    } else {
      AveragesWithinBounds(clusters[1..], width, c, b, i - |clusters[0]|);
    }
  }

  lemma ClusterMembers(records: seq<Record>, k: nat, m: nat, p: nat)
    requires 0 < k <= |records| && m < |Clusters(records, k)| && p < |Clusters(records, k)[m]|
    ensures Clusters(records, k)[m][p] in records
    decreases |records|
  {
    if |records| >= 2 * k && m > 0 {
      ClusterMembers(records[k..], k, m - 1, p);
    }
  }

  lemma ReleasedNumbersWithinBounds(coded: seq<Record>, width: nat, k: nat, c: nat, b: (Option<real>, Option<real>), i: nat)
    requires Wide(coded, width) && 0 < k <= |coded| && c < width && i < |Aggregate(coded, width, k)|
    requires forall p :: 0 <= p < |coded| ==> WithinBound(coded[p].nums[c], b)
    ensures WithinBound(Aggregate(coded, width, k)[i].nums[c], b)
  {
    SortedStaysWide(coded, width, k);
    var clusters: seq<seq<Record>> := Clusters(Sort(coded), k);
    forall m, p | 0 <= m < |clusters| && 0 <= p < |clusters[m]| ensures WithinBound(clusters[m][p].nums[c], b) {
      ClusterMembers(Sort(coded), k, m, p);
      assert clusters[m][p] in multiset(Sort(coded));
      assert clusters[m][p] in coded;
    }
    AveragesWithinBounds(clusters, width, c, b, i);
  }

  /** When every quasi-identifier is a microaggregated column the release is k-anonymous, and
      the final bound check cannot fail. */
  lemma NumericColumnsGiveKAnonymity(n: Numerals, coded: seq<Record>, numeric: seq<string>, columns: seq<string>, k: nat)
    requires ValidParameters(k, numeric, columns) && forall j :: 0 <= j < |columns| ==> columns[j] in numeric
    requires Wide(coded, |numeric|) && k <= |coded|
    ensures var released := ReleasedRows(n, Aggregate(coded, |numeric|, k), numeric);
      HasColumns(released, columns) && KAnonymous(Tuples(released, columns), k)
  {
    hide Sort, Clusters, AverageAll, KAnonymous, Released;
    var width := |numeric|;
    SortedStaysWide(coded, width, k);
    ClustersPartition(Sort(coded), k);
    var f := KeyReader(n, numeric, columns);
    AveragesAreKAnonymous(Clusters(Sort(coded), k), width, f, k);
    TuplesAreRead(n, Aggregate(coded, width, k), numeric, columns);
  }

  /** The tuple a released row shows, read off the record's numbers. */
  ghost function KeyReader(n: Numerals, numeric: seq<string>, columns: seq<string>): (f: seq<real> -> Key)
    requires forall j :: 0 <= j < |columns| ==> columns[j] in numeric
  {
    (nums: seq<real>) => seq(|columns|, j requires 0 <= j < |columns| =>
      if IndexOf(numeric, columns[j]) < |nums| then n.render(nums[IndexOf(numeric, columns[j])]) else "")
  }

  lemma TuplesAreRead(n: Numerals, records: seq<Record>, numeric: seq<string>, columns: seq<string>)
    requires Wide(records, |numeric|) && forall j :: 0 <= j < |columns| ==> columns[j] in numeric
    requires forall i, j :: 0 <= i < j < |numeric| ==> numeric[i] != numeric[j]
    ensures var released := ReleasedRows(n, records, numeric);
      HasColumns(released, columns) && Tuples(released, columns) == KeysBy(KeyReader(n, numeric, columns), records)
  {
    var released := ReleasedRows(n, records, numeric);
    forall i, j | 0 <= i < |records| && 0 <= j < |columns|
      ensures columns[j] in released[i]
      ensures released[i][columns[j]] == n.render(records[i].nums[IndexOf(numeric, columns[j])])
    {
      ReleasedCell(n, records[i], numeric, |numeric|, IndexOf(numeric, columns[j]));
    }
    forall i | 0 <= i < |records|
      ensures Tuples(released, columns)[i] == KeysBy(KeyReader(n, numeric, columns), records)[i]
    {
    }
  }

  ghost function IndexOf(s: seq<string>, x: string): (i: nat)
    requires x in s
    ensures i < |s| && s[i] == x
  {
    if s[0] == x then 0 else IndexOf(s[1..], x) + 1
  }
}
