/** The noisy multidimensional histogram, released as synthetic rows. */
module DpHistogram {
  import opened Results
  import opened NoiseSampler
  import opened DpRelease

  type Cell = seq<string>

  ghost predicate AllDistinct<T>(s: seq<T>) {
    forall i, j :: 0 <= i < j < |s| ==> s[i] != s[j]
  }

  // ---------- The cells: the product of the declared domains ----------

  function Prepend(values: seq<string>, tails: seq<Cell>): seq<Cell> {
    if values == [] then []
    else seq(|tails|, i requires 0 <= i < |tails| => [values[0]] + tails[i]) + Prepend(values[1..], tails)
  }

  /** All combinations, the first dimension varying slowest. */
  function Cells(domains: seq<seq<string>>): seq<Cell> {
    if domains == [] then [[]] else Prepend(domains[0], Cells(domains[1..]))
  }

  lemma InPrepend(values: seq<string>, tails: seq<Cell>, c: Cell)
    ensures c in Prepend(values, tails) <==> c != [] && c[0] in values && c[1..] in tails
  {
    if values != [] {
      var first := seq(|tails|, i requires 0 <= i < |tails| => [values[0]] + tails[i]);
      InPrepend(values[1..], tails, c);
      if c in first {
        var i :| 0 <= i < |first| && first[i] == c;
        assert c[1..] == tails[i];
      }
      if c != [] && c[0] == values[0] && c[1..] in tails {
        var i :| 0 <= i < |tails| && tails[i] == c[1..];
        assert first[i] == [c[0]] + c[1..] == c;
      }
    }
  }

  /** A cell is listed exactly when each of its values is in the domain of its dimension. */
  lemma InCells(domains: seq<seq<string>>, c: Cell)
    ensures c in Cells(domains) <==> |c| == |domains| && forall i :: 0 <= i < |c| ==> c[i] in domains[i]
  {
    if domains != [] {
      InPrepend(domains[0], Cells(domains[1..]), c);
      if c != [] {
        InCells(domains[1..], c[1..]);
        if |c| == |domains| && forall i :: 0 <= i < |c| ==> c[i] in domains[i] {
          assert forall i :: 0 <= i < |c[1..]| ==> c[1..][i] in domains[1..][i];
        }
        if |c[1..]| == |domains[1..]| && c[0] in domains[0] && forall i :: 0 <= i < |c[1..]| ==> c[1..][i] in domains[1..][i] {
          forall i | 0 <= i < |c| ensures c[i] in domains[i] {
            if i > 0 {
              assert c[1..][i - 1] in domains[1..][i - 1];
            }
          }
        }
      }
    }
  }

  /** `a` comes first: at the first dimension where they differ, its value is declared earlier. */
  ghost predicate Earlier(domains: seq<seq<string>>, a: Cell, b: Cell, d: nat, x: nat, y: nat) {
    && d < |a| && |a| == |b| == |domains| && a[..d] == b[..d] && x < y < |domains[d]|
    && domains[d][x] == a[d] && domains[d][y] == b[d]
  }

  lemma {:induction false} InPrependAt(values: seq<string>, tails: seq<Cell>, m: nat) returns (v: nat, k: nat)
    requires m < |Prepend(values, tails)|
    ensures v < |values| && k < |tails| && m == v * |tails| + k && Prepend(values, tails)[m] == [values[v]] + tails[k]
  {
    if m < |tails| {
      v, k := 0, m;
    } else {
      v, k := InPrependAt(values[1..], tails, m - |tails|);
      v := v + 1;
      assert v * |tails| == (v - 1) * |tails| + |tails|;
    }
  }

  lemma EarlierLater(domains: seq<seq<string>>, value: string, a: Cell, b: Cell, d: nat, x: nat, y: nat)
    requires domains != [] && Earlier(domains[1..], a, b, d, x, y)
    ensures Earlier(domains, [value] + a, [value] + b, d + 1, x, y)
  {
    assert ([value] + a)[..d + 1] == [value] + a[..d] && ([value] + b)[..d + 1] == [value] + b[..d];
    assert domains[d + 1] == domains[1..][d];
  }

  lemma BlocksAreOrdered(v: nat, k: nat, w: nat, l: nat, size: nat)
    requires k < size && l < size && v * size + k < w * size + l
    ensures v < w || (v == w && k < l)
  {
    assert w < v ==> (w + 1) * size <= v * size;
  }

  /** The cells are listed in the order of their values' declarations, the first dimension first. */
  lemma {:induction false} CellsAreOrdered(domains: seq<seq<string>>, i: nat, j: nat) returns (d: nat, x: nat, y: nat)
    requires i < j < |Cells(domains)|
    ensures Earlier(domains, Cells(domains)[i], Cells(domains)[j], d, x, y)
  {
    var tails := Cells(domains[1..]);
    var v, k := InPrependAt(domains[0], tails, i);
    var w, l := InPrependAt(domains[0], tails, j);
    InCells(domains, Cells(domains)[i]);
    InCells(domains, Cells(domains)[j]);
    BlocksAreOrdered(v, k, w, l, |tails|);
    if v == w {
      d, x, y := CellsAreOrdered(domains[1..], k, l);
      EarlierLater(domains, domains[0][v], tails[k], tails[l], d, x, y);
      d := d + 1;
    } else {
      d, x, y := 0, v, w;
    }
  }

  lemma PrependDistinct(values: seq<string>, tails: seq<Cell>)
    requires AllDistinct(values) && AllDistinct(tails)
    ensures AllDistinct(Prepend(values, tails))
  {
    if values != [] {
      var first := seq(|tails|, i requires 0 <= i < |tails| => [values[0]] + tails[i]);
      var rest := Prepend(values[1..], tails);
      PrependDistinct(values[1..], tails);
      forall i, j | 0 <= i < j < |first| ensures first[i] != first[j] {
        assert first[i][1..] == tails[i] && first[j][1..] == tails[j];
      }
      forall c | c in first ensures c !in rest {
        InPrepend(values[1..], tails, c);
        assert c[0] == values[0] && values[0] !in values[1..];
      }
      DistinctConcat(first, rest);
    }
  }

  lemma DistinctConcat<T>(a: seq<T>, b: seq<T>)
    requires AllDistinct(a) && AllDistinct(b) && forall c :: c in a ==> c !in b
    ensures AllDistinct(a + b)
  {
    forall i, j | 0 <= i < j < |a + b| ensures (a + b)[i] != (a + b)[j] {
      if i < |a| <= j {
        assert (a + b)[i] in a && (a + b)[j] in b;
      }
    }
  }

  lemma CellsDistinct(domains: seq<seq<string>>)
    requires forall d :: d in domains ==> AllDistinct(d)
    ensures AllDistinct(Cells(domains))
  {
    if domains != [] {
      assert forall d :: d in domains[1..] ==> d in domains;
      CellsDistinct(domains[1..]);
      PrependDistinct(domains[0], Cells(domains[1..]));
    }
  }

  // ---------- Counting ----------

  function Key(row: Row, dimensions: seq<string>): Cell
    requires forall d :: d in dimensions ==> d in row
  {
    seq(|dimensions|, i requires 0 <= i < |dimensions| => assert dimensions[i] in dimensions; row[dimensions[i]])
  }

  predicate HasDimensions(rows: seq<Row>, dimensions: seq<string>) {
    forall r, d :: r in rows && d in dimensions ==> d in r
  }

  function CellCount(rows: seq<Row>, dimensions: seq<string>, c: Cell): nat
    requires HasDimensions(rows, dimensions)
  {
    if rows == [] then 0
    else
      var n := |rows| - 1;
      assert rows[n] in rows;
      CellCount(rows[..n], dimensions, c) + if Key(rows[n], dimensions) == c then 1 else 0
  }

  /** The records with the values of the cell, dimension by dimension. */
  ghost function Having(rows: seq<Row>, dimensions: seq<string>, c: Cell): set<nat>
    requires HasDimensions(rows, dimensions) && |c| == |dimensions|
  {
    set i: nat | i < |rows| && forall j :: 0 <= j < |dimensions| ==> (assert rows[i] in rows; rows[i][dimensions[j]] == c[j])
  }

  lemma {:induction false} CellCountIsCardinality(rows: seq<Row>, dimensions: seq<string>, c: Cell)
    requires HasDimensions(rows, dimensions) && |c| == |dimensions|
    ensures CellCount(rows, dimensions, c) == |Having(rows, dimensions, c)|
  {
    if rows == [] {
      assert Having(rows, dimensions, c) == {};
    } else {
      var n := |rows| - 1;
      assert rows[n] in rows && forall r :: r in rows[..n] ==> r in rows;
      CellCountIsCardinality(rows[..n], dimensions, c);
      HavingSnoc(rows, dimensions, c);
    }
  }

  lemma HavingSnoc(rows: seq<Row>, dimensions: seq<string>, c: Cell)
    requires rows != [] && HasDimensions(rows, dimensions) && HasDimensions(rows[..|rows| - 1], dimensions)
    requires HasDimensions([rows[|rows| - 1]], dimensions) && |c| == |dimensions|
    ensures var n := |rows| - 1; var before := Having(rows[..n], dimensions, c);
      n !in before && Having(rows, dimensions, c) == if Key(rows[n], dimensions) == c then before + {n} else before
  {
    var n := |rows| - 1;
    var before, key, all := Having(rows[..n], dimensions, c), Key(rows[n], dimensions), Having(rows, dimensions, c);
    assert key == c <==> forall j :: 0 <= j < |dimensions| ==> key[j] == c[j];
    forall i: nat ensures i in all <==> if i == n then key == c else i in before {
      if i < n {
        assert rows[..n][i] == rows[i];
      }
    }
  }

  function CellCounts(rows: seq<Row>, dimensions: seq<string>, cells: seq<Cell>): seq<nat>
    requires HasDimensions(rows, dimensions)
  {
    seq(|cells|, i requires 0 <= i < |cells| => CellCount(rows, dimensions, cells[i]))
  }

  function Copies(c: Cell, n: nat): seq<Cell> {
    if n == 0 then [] else Copies(c, n - 1) + [c]
  }

  /** The released rows: each cell as often as its noisy count says. */
  function Expand(cells: seq<Cell>, counts: seq<nat>): seq<Cell>
    requires |cells| == |counts|
  {
    if cells == [] then []
    else
      var n := |cells| - 1;
      Expand(cells[..n], counts[..n]) + Copies(cells[n], counts[n])
  }

  // ---------- The release ----------

  predicate DomainOk(values: seq<string>) {
    values != [] && "" !in values && forall i, j :: 0 <= i < j < |values| ==> values[i] != values[j]
  }

  predicate RowsInDomains(rows: seq<Row>, dimensions: seq<string>, domains: seq<seq<string>>)
    requires HasDimensions(rows, dimensions) && |dimensions| == |domains|
  {
    forall r :: r in rows ==> forall i :: 0 <= i < |dimensions| ==> r[dimensions[i]] in domains[i]
  }

  ghost predicate Releasable(table: Table, dimensions: seq<string>, domains: seq<seq<string>>) {
    && dimensions != [] && AllDistinct(dimensions) && |domains| == |dimensions|
    && (forall d :: d in dimensions ==> d in table.fields)
    && HasDimensions(table.rows, dimensions)
    && (forall d :: d in domains ==> DomainOk(d))
    && RowsInDomains(table.rows, dimensions, domains)
  }

  /** Why a histogram is refused before anything is drawn; `None` exactly when it is releasable
      within the epsilon bounds. */
  ghost function HistogramRefusal(table: Table, dimensions: seq<string>, domains: seq<seq<string>>, epsilon: real)
    : (e: Option<DpError>)
    requires table.Valid() && |domains| == |dimensions|
    ensures e.None? <==> EpsilonOk(epsilon) && Releasable(table, dimensions, domains)
  {
    if dimensions == [] || !AllDistinct(dimensions) then Some(InvalidDimensions)
    else if !EpsilonOk(epsilon) then Some(InvalidEpsilon)
    else if exists d :: d in dimensions && d !in table.fields then Some(MissingColumn)
    else if exists d :: d in domains && !DomainOk(d) then Some(InvalidDomain)
    else if !RowsInDomains(table.rows, dimensions, domains) then Some(ValueOutsideDomain)
    else None
  }

  /** What each error says about the request. */
  ghost predicate HistogramBlamed(e: DpError, table: Table, dimensions: seq<string>, domains: seq<seq<string>>, epsilon: real) {
    match e
    case InvalidDimensions => dimensions == [] || !AllDistinct(dimensions)
    case InvalidEpsilon => !(0.7 <= epsilon <= 100.0)
    case MissingColumn => exists d :: d in dimensions && d !in table.fields
    case InvalidDomain => exists d :: d in domains && (d == [] || "" in d || !AllDistinct(d))
    case ValueOutsideDomain =>
      exists x, i :: x in table.rows && 0 <= i < |dimensions| && i < |domains| && dimensions[i] in x && x[dimensions[i]] !in domains[i]
    case NoMoreDraws => true
    case _ => false
  }

  /** The file released on a tape: every cell as often as its clamped noisy count says. */
  ghost predicate HistogramAnswered(table: Table, dimensions: seq<string>, cells: seq<Cell>, tape: seq<Draw>,
                                    r: Result<seq<Cell>, DpError>)
    requires HasDimensions(table.rows, dimensions)
  {
    match SampleMany(tape, |cells|)
    case None => r == Err(NoMoreDraws)
    case Some((zs, _)) => r == Ok(Expand(cells, ClampAll(CellCounts(table.rows, dimensions, cells), zs)))
  }

  method ReleaseHistogram(table: Table, dimensions: seq<string>, domains: seq<seq<string>>, epsilon: real, source: Source)
    returns (r: Result<seq<Cell>, DpError>)
    requires table.Valid() && source.Valid() && |domains| == |dimensions|
    modifies source
    ensures source.Valid()
    ensures match HistogramRefusal(table, dimensions, domains, epsilon)
      case Some(e) => r == Err(e) && source.used == old(source.used)
      case None => HistogramAnswered(table, dimensions, Cells(domains), source.tape[old(source.used)..], r)
    ensures r.Ok? ==> 0.7 <= epsilon <= 100.0 && Releasable(table, dimensions, domains)
    ensures r.Ok? ==> forall d :: d in domains ==> d != [] && "" !in d && AllDistinct(d)
    ensures r.Err? ==> HistogramBlamed(r.error, table, dimensions, domains, epsilon)
    ensures r.Ok? ==>
      var samples := SampleMany(source.tape[old(source.used)..], |Cells(domains)|);
      samples.Some? && NoisyFile(table, dimensions, domains, samples.value.0, r.value)
  {
    hide HistogramAnswered, NoisyFile;
    if dimensions == [] || exists i, j :: 0 <= i < j < |dimensions| && dimensions[i] == dimensions[j] {
      return Err(InvalidDimensions);
    }
    if !EpsilonOk(epsilon) {
      return Err(InvalidEpsilon);
    }
    if exists i :: 0 <= i < |dimensions| && dimensions[i] !in table.fields {
      return Err(MissingColumn);
    }
    if exists i :: 0 <= i < |domains| && !DomainOk(domains[i]) {
      return Err(InvalidDomain);
    }
    assert HasDimensions(table.rows, dimensions);
    if !RowsInDomains(table.rows, dimensions, domains) {
      return Err(ValueOutsideDomain);
    }
    r := NoisyRows(table, dimensions, Cells(domains), source);
    AnsweredIsNoisy(table, dimensions, domains, source.tape[old(source.used)..], r);
  }

  method NoisyRows(table: Table, dimensions: seq<string>, cells: seq<Cell>, source: Source)
    returns (r: Result<seq<Cell>, DpError>)
    requires HasDimensions(table.rows, dimensions) && source.Valid()
    modifies source
    ensures source.Valid() && HistogramAnswered(table, dimensions, cells, source.tape[old(source.used)..], r)
  {
    hide SampleMany, Sample, CellCount;
    ghost var start := source.used;
    ghost var tape := source.tape[start..];
    ghost var noise: seq<int> := [];
    var rows: seq<Cell> := [];
    SampleNone(tape);
    for i := 0 to |cells|
      invariant source.Valid() && start <= source.used
      invariant SampleMany(tape, i) == Some((noise, source.used - start)) && |noise| == i
      invariant rows == Expand(cells[..i], ClampAll(CellCounts(table.rows, dimensions, cells[..i]), noise))
    {
      ghost var at := source.used - start;
      assert source.tape[source.used..] == tape[at..];
      var drawn := SampleTwoSidedGeometric(source);
      if drawn.None? {
        SampleStops(tape, i, |cells|, noise, at);
        return Err(NoMoreDraws);
      }
      var noisy := Clamp(CellCount(table.rows, dimensions, cells[i]), drawn.value);
      ghost var z := SampleOneMore(tape, i, noise, at);
      ExpandMore(table.rows, dimensions, cells[..i], noise, cells[i], z);
      noise := noise + [z];
      rows := rows + Copies(cells[i], noisy);
      assert cells[..i + 1] == cells[..i] + [cells[i]];
    }
    assert cells[..|cells|] == cells;
    r := Ok(rows);
  }

  /** The file holds cells only, each as often as it has records, plus its own noise. */
  ghost predicate NoisyFile(table: Table, dimensions: seq<string>, domains: seq<seq<string>>, noise: seq<int>, file: seq<Cell>)
    requires HasDimensions(table.rows, dimensions) && |domains| == |dimensions|
  {
    var cells := Cells(domains);
    && |noise| == |cells| && (forall c :: c in file ==> c in cells)
    && forall k :: 0 <= k < |cells| ==>
         |cells[k]| == |dimensions|
         && IsNoisy(multiset(file)[cells[k]], |Having(table.rows, dimensions, cells[k])|, noise[k])
  }

  lemma AnsweredIsNoisy(table: Table, dimensions: seq<string>, domains: seq<seq<string>>, tape: seq<Draw>,
                        r: Result<seq<Cell>, DpError>)
    requires Releasable(table, dimensions, domains) && HistogramAnswered(table, dimensions, Cells(domains), tape, r)
    ensures r.Ok? ==>
      var samples := SampleMany(tape, |Cells(domains)|);
      samples.Some? && NoisyFile(table, dimensions, domains, samples.value.0, r.value)
    ensures r.Err? ==> r.error == NoMoreDraws
  {
    hide SampleMany, CellCount, Having, Cells, Expand;
    if r.Ok? {
      var cells := Cells(domains);
      var noise := SampleMany(tape, |cells|).value.0;
      var counts := ClampAll(CellCounts(table.rows, dimensions, cells), noise);
      CellsDistinct(domains);
      forall c | c in r.value ensures c in cells {
        assert c in multiset(r.value);
        if c !in cells {
          ExpandOthers(cells, counts, c);
        }
      }
      forall k | 0 <= k < |cells| ensures |cells[k]| == |dimensions|
        ensures IsNoisy(multiset(r.value)[cells[k]], |Having(table.rows, dimensions, cells[k])|, noise[k])
      {
        assert cells[k] in cells;
        InCells(domains, cells[k]);
        CellCountIsCardinality(table.rows, dimensions, cells[k]);
        ExpandCount(cells, counts, k);
      }
    }
  }

  lemma ExpandMore(rows: seq<Row>, dimensions: seq<string>, cells: seq<Cell>, noise: seq<int>, c: Cell, z: int)
    requires HasDimensions(rows, dimensions) && |noise| == |cells|
    ensures Expand(cells + [c], ClampAll(CellCounts(rows, dimensions, cells + [c]), noise + [z]))
         == Expand(cells, ClampAll(CellCounts(rows, dimensions, cells), noise))
            + Copies(c, Clamp(CellCount(rows, dimensions, c), z))
  {
    var all := ClampAll(CellCounts(rows, dimensions, cells + [c]), noise + [z]);
    assert (cells + [c])[..|cells|] == cells;
    assert all[..|cells|] == ClampAll(CellCounts(rows, dimensions, cells), noise);
  }

  // ---------- The rows reveal the noisy counts, no more and no less ----------

  lemma CopiesCount(c: Cell, n: nat, d: Cell)
    ensures multiset(Copies(c, n))[d] == if c == d then n else 0
  {
  }

  lemma {:induction false} ExpandCount(cells: seq<Cell>, counts: seq<nat>, k: nat)
    requires |cells| == |counts| && k < |cells| && AllDistinct(cells)
    ensures multiset(Expand(cells, counts))[cells[k]] == counts[k]
    decreases |cells|
  {
    var n := |cells| - 1;
    CopiesCount(cells[n], counts[n], cells[k]);
    if k < n {
      ExpandCount(cells[..n], counts[..n], k);
    } else {
      ExpandOthers(cells[..n], counts[..n], cells[n]);
    }
  }

  lemma {:induction false} ExpandOthers(cells: seq<Cell>, counts: seq<nat>, c: Cell)
    requires |cells| == |counts| && c !in cells
    ensures multiset(Expand(cells, counts))[c] == 0
    decreases |cells|
  {
    if cells != [] {
      var n := |cells| - 1;
      CopiesCount(cells[n], counts[n], c);
      ExpandOthers(cells[..n], counts[..n], c);
    }
  }

  /** Different noisy counts give different files, so the file's probability is that of its counts. */
  lemma ExpandIsInjective(cells: seq<Cell>, counts: seq<nat>, counts': seq<nat>)
    requires |cells| == |counts| == |counts'| && AllDistinct(cells)
    requires Expand(cells, counts) == Expand(cells, counts')
    ensures counts == counts'
  {
    forall k | 0 <= k < |cells| ensures counts[k] == counts'[k] {
      ExpandCount(cells, counts, k);
      ExpandCount(cells, counts', k);
    }
  }

  // ---------- Privacy ----------

  lemma CellCountConcat(a: seq<Row>, b: seq<Row>, dimensions: seq<string>, c: Cell)
    requires HasDimensions(a, dimensions) && HasDimensions(b, dimensions) && HasDimensions(a + b, dimensions)
    ensures CellCount(a + b, dimensions, c) == CellCount(a, dimensions, c) + CellCount(b, dimensions, c)
  {
    if b == [] {
      assert a + b == a;
    } else {
      var n := |b| - 1;
      assert (a + b)[..|a + b| - 1] == a + b[..n];
      assert HasDimensions(a + b[..n], dimensions);
      CellCountConcat(a, b[..n], dimensions, c);
    }
  }

  /** Adding a record moves exactly its own cell, by one. */
  lemma OneCellMoves(fewer: Table, more: Table, i: nat, x: Row, dimensions: seq<string>, c: Cell)
    requires AddsOne(fewer, more, i, x)
    requires HasDimensions(fewer.rows, dimensions) && HasDimensions(more.rows, dimensions)
    ensures forall d :: d in dimensions ==> d in x
    ensures CellCount(more.rows, dimensions, c)
         == CellCount(fewer.rows, dimensions, c) + if Key(x, dimensions) == c then 1 else 0
  {
    var head, tail := fewer.rows[..i], fewer.rows[i..];
    assert fewer.rows == head + tail;
    assert x in more.rows;
    assert HasDimensions(head + [x], dimensions) && HasDimensions([x], dimensions);
    CellCountConcat(head, tail, dimensions, c);
    CellCountConcat(head + [x], tail, dimensions, c);
    CellCountConcat(head, [x], dimensions, c);
    assert [x][..0] == [];
  }

  /** Products of masses whose counts differ by one in at most one place. */
  lemma {:induction false} OneChangeRatio(counts: seq<nat>, counts': seq<nat>, vs: seq<nat>, k: nat)
    requires |counts| == |counts'| == |vs|
    requires forall i :: 0 <= i < |counts| && i != k ==> counts[i] == counts'[i]
    requires k < |counts| ==> counts[k] <= counts'[k] + 1 && counts'[k] <= counts[k] + 1
    ensures BatchMass(counts, vs) <= 2.0 * BatchMass(counts', vs)
    ensures k >= |counts| ==> BatchMass(counts, vs) == BatchMass(counts', vs)
    decreases |vs|
  {
    if vs != [] {
      var n := |vs| - 1;
      var a, c := BatchStep(counts, vs);
      var b, d := BatchStep(counts', vs);
      hide ClampMass, BatchMass, IsProduct;
      OneChangeRatio(counts[..n], counts'[..n], vs[..n], k);
      if n == k {
        CountIsPrivate(counts[n], counts'[n], vs[n]);
      }
      ProductRatio(a, b, c, d, BatchMass(counts, vs), BatchMass(counts', vs));
    }
  }

  ghost predicate IsProduct(x: real, a: real, c: real) {
    x == a * c
  }

  lemma BatchStep(counts: seq<nat>, vs: seq<nat>) returns (a: real, c: real)
    requires |counts| == |vs| && vs != []
    ensures var n := |vs| - 1; a == BatchMass(counts[..n], vs[..n]) && c == ClampMass(counts[n], vs[n])
    ensures 0.0 < a && 0.0 < c && IsProduct(BatchMass(counts, vs), a, c)
  {
    hide ClampMass;
    var n := |vs| - 1;
    a, c := BatchMass(counts[..n], vs[..n]), ClampMass(counts[n], vs[n]);
  }

  /** A product at most doubles when one factor does and the other stays. */
  lemma ProductRatio(a: real, b: real, c: real, d: real, x: real, y: real)
    requires 0.0 < a && 0.0 < d && IsProduct(x, a, c) && IsProduct(y, b, d)
    requires (a == b && c <= 2.0 * d) || (a <= 2.0 * b && c == d)
    ensures x <= 2.0 * y
    ensures a == b && c == d ==> x == y
  {
    if a == b {
      assert a * c <= a * (2.0 * d);
    } else {
      assert a * d <= (2.0 * b) * d;
    }
  }

  /** Between neighbouring tables at most one cell count differs, by one. */
  lemma OneCellChanges(a: Table, b: Table, dimensions: seq<string>, domains: seq<seq<string>>) returns (k: nat)
    requires Neighbours(a, b) && Releasable(a, dimensions, domains) && Releasable(b, dimensions, domains)
    ensures var counts, counts' := CellCounts(a.rows, dimensions, Cells(domains)), CellCounts(b.rows, dimensions, Cells(domains));
      && (forall i :: 0 <= i < |counts| && i != k ==> counts[i] == counts'[i])
      && (k < |counts| ==> counts[k] <= counts'[k] + 1 && counts'[k] <= counts[k] + 1)
  {
    hide Cells;
    var i, x :| AddsOne(a, b, i, x) || AddsOne(b, a, i, x);
    var fewer, more := if AddsOne(a, b, i, x) then a else b, if AddsOne(a, b, i, x) then b else a;
    var cells := Cells(domains);
    forall c
      ensures CellCount(more.rows, dimensions, c)
           == CellCount(fewer.rows, dimensions, c) + if Key(x, dimensions) == c then 1 else 0
    {
      OneCellMoves(fewer, more, i, x, dimensions, c);
    }
    CellsDistinct(domains);
    k := if exists k :: 0 <= k < |cells| && cells[k] == Key(x, dimensions)
         then var k :| 0 <= k < |cells| && cells[k] == Key(x, dimensions); k else |cells|;
  }

  /** One record in or out changes the probability of the whole histogram file by a factor of
      two at most, however many cells it has: the cells are disjoint. */
  lemma HistogramIsPrivate(a: Table, b: Table, dimensions: seq<string>, domains: seq<seq<string>>, vs: seq<nat>)
    requires Neighbours(a, b) && Releasable(a, dimensions, domains) && Releasable(b, dimensions, domains)
    requires |vs| == |Cells(domains)|
    ensures BatchMass(CellCounts(a.rows, dimensions, Cells(domains)), vs)
         <= 2.0 * BatchMass(CellCounts(b.rows, dimensions, Cells(domains)), vs)
  {
    hide BatchMass, Cells;
    var k := OneCellChanges(a, b, dimensions, domains);
    OneChangeRatio(CellCounts(a.rows, dimensions, Cells(domains)), CellCounts(b.rows, dimensions, Cells(domains)), vs, k);
  }

  /** The record that makes the difference has a cell: both tables lie in the declared domains. */
  lemma EveryRecordHasACell(table: Table, dimensions: seq<string>, domains: seq<seq<string>>, x: Row)
    requires Releasable(table, dimensions, domains) && x in table.rows
    ensures Key(x, dimensions) in Cells(domains)
  {
    InCells(domains, Key(x, dimensions));
  }
}
